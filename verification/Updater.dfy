/** The updater over its registry, its download cache and what it has done so far. */
module Updater {
  import opened Prelude
  import opened InstallPlan
  import opened UpdateProtocol
  import UpdateDocument
  import PublisherKey
  import Versions

  /** What happened, in order. */
  datatype Event =
    | Verified(id: string, update: Bytes, signature: Bytes, key: PublisherKey.Key)
    | Parsed(id: string, update: Bytes)
    | Installing(id: string, channel: string, package: Bytes)

  /** The signature of this very text verified before. */
  ghost predicate VerifiedBefore(log: seq<Event>, i: int, id: string, update: Bytes) {
    exists j :: 0 <= j < i <= |log| && log[j].Verified? && log[j].id == id && log[j].update == update
  }

  /** Some document parsed before position `i` names this digest for the channel. */
  ghost predicate SignedBefore(w: World, log: seq<Event>, i: int, id: string, channel: string, sha256: string) {
    exists j :: 0 <= j < i <= |log| && log[j].Parsed? && log[j].id == id
      && w.parse(log[j].update).Some?
      && ReadDocument(w.parse(log[j].update).value, id, channel).Document?
      && ReadDocument(w.parse(log[j].update).value, id, channel).sha256 == sha256
  }

  ghost predicate EventOk(w: World, apps: map<string, App>, log: seq<Event>, i: int)
    requires 0 <= i < |log|
  {
    match log[i]
    case Verified(id, update, signature, key) =>
      w.verify(update, signature, key) && id in apps && PublisherKey.PublicKey(apps[id].record.key) == Some(key)
    case Parsed(id, update) => VerifiedBefore(log, i, id, update)
    case Installing(id, channel, package) => SignedBefore(w, log, i, id, channel, w.sha256(package))
  }

  ghost predicate LogOk(w: World, apps: map<string, App>, log: seq<Event>) {
    forall i :: 0 <= i < |log| ==> EventOk(w, apps, log, i)
  }

  /** An interrupted install left the application under its own key. */
  predicate KeyIsPinned(app: App) {
    app.pending.Some? ==> app.pending.value.key == app.record.key
  }

  predicate KeysArePinned(apps: map<string, App>) {
    forall id | id in apps :: KeyIsPinned(apps[id])
  }

  lemma InstallKeepsKey(app: App, m: Manifest, source: string, channel: string, t: Attempt)
    requires KeyIsPinned(app) && m.key == app.record.key
    ensures var a := Install(app, m, source, channel, t).app; KeyIsPinned(a) && a.record.key == app.record.key
  {
    hide PublisherKey.SameKey, Versions.Compare;
  }

  /** The log stays in order when the registry keeps the keys. */
  lemma LogGrows(w: World, apps: map<string, App>, apps': map<string, App>, log: seq<Event>, e: Event)
    requires LogOk(w, apps, log)
    requires forall id | id in apps :: id in apps' && apps'[id].record.key == apps[id].record.key
    requires EventOk(w, apps', log + [e], |log|)
    ensures LogOk(w, apps', log + [e])
  {
    hide PublisherKey.PublicKey, ReadDocument;
    var l := log + [e];
    forall i | 0 <= i < |log|
      ensures EventOk(w, apps', l, i)
    {
      assert EventOk(w, apps, log, i);
      EarlierIsKept(w, log, e, i);
    }
  }

  lemma EarlierIsKept(w: World, log: seq<Event>, e: Event, i: nat)
    requires i < |log|
    ensures forall id, update :: VerifiedBefore(log, i, id, update) ==> VerifiedBefore(log + [e], i, id, update)
    ensures forall id, channel, sha256 ::
      SignedBefore(w, log, i, id, channel, sha256) ==> SignedBefore(w, log + [e], i, id, channel, sha256)
  {
    hide ReadDocument;
    var l := log + [e];
    forall id, update | VerifiedBefore(log, i, id, update)
      ensures VerifiedBefore(l, i, id, update)
    {
      var j :| 0 <= j < i <= |log| && log[j].Verified? && log[j].id == id && log[j].update == update;
      assert l[j] == log[j];
    }
    forall id, channel, sha256 | SignedBefore(w, log, i, id, channel, sha256)
      ensures SignedBefore(w, l, i, id, channel, sha256)
    {
      var j :| 0 <= j < i <= |log| && log[j].Parsed? && log[j].id == id
        && w.parse(log[j].update).Some?
        && ReadDocument(w.parse(log[j].update).value, id, channel).Document?
        && ReadDocument(w.parse(log[j].update).value, id, channel).sha256 == sha256;
      assert l[j] == log[j];
    }
  }

  lemma SignedStays(w: World, log: seq<Event>, e: Event)
    requires e.Installing? && SignedBefore(w, log, |log|, e.id, e.channel, w.sha256(e.package))
    ensures SignedBefore(w, log + [e], |log|, e.id, e.channel, w.sha256(e.package))
  {
    hide ReadDocument;
    var j :| 0 <= j < |log| && log[j].Parsed? && log[j].id == e.id
      && w.parse(log[j].update).Some?
      && ReadDocument(w.parse(log[j].update).value, e.id, e.channel).Document?
      && ReadDocument(w.parse(log[j].update).value, e.id, e.channel).sha256 == w.sha256(e.package);
    assert (log + [e])[j] == log[j];
  }

  class Updater {
    const world: World
    var apps: map<string, App>
    var cache: map<string, Bytes>
    ghost var log: seq<Event>

    ghost predicate Valid()
      reads this
    {
      LogOk(world, apps, log) && KeysArePinned(apps)
    }

    constructor (w: World, installed: map<string, App>)
      requires KeysArePinned(installed)
      ensures Valid() && world == w && apps == installed && cache == map[] && log == []
    {
      world, apps, cache, log := w, installed, map[], [];
    }

    function Find(id: string): Option<App>
      reads this
    {
      if id in apps then Some(apps[id]) else None
    }

    /** `Updater::check`. */
    method Check(id: string, reply: Reply) returns (r: CheckResult)
      requires Valid()
      modifies this`log
      ensures Valid() && old(log) <= log
      ensures r == UpdateProtocol.Check(world, Find(id), id, reply)
      ensures UpdateDocument.IsAnswer(world, Find(id), id, reply, r)
      ensures r.Offered? ==> id in apps && SignedBefore(world, log, |log|, id, ChannelOf(apps[id].record), r.offer.sha256)
    {
      hide ReadDocument, PublisherKey.PublicKey, UpdateDocument.IsAnswer;
      UpdateDocument.CheckExact(world, Find(id), id, reply);
      if id !in apps {
        return Failed(NotInstalled);
      }
      var record := apps[id].record;
      if record.url == "" {
        return Failed(NoSource);
      }
      var update, sig := Bounded(reply.update, MAX_UPDATE_JSON), Bounded(reply.signature, MAX_SIGNATURE);
      if update.None? || sig.None? {
        return Failed(Unreachable);
      }
      var pinned := PublisherKey.PublicKey(record.key);
      if pinned.None? {
        return Failed(UnreadableKey);
      }
      if |sig.value| != 64 {
        return Failed(BadSignature);
      }
      if !world.verify(update.value, sig.value, pinned.value) {
        return Failed(BadSignature);
      }
      ghost var verified := Verified(id, update.value, sig.value, pinned.value);
      LogGrows(world, apps, apps, log, verified);
      log := log + [verified];
      ghost var parsed := Parsed(id, update.value);
      assert log[|log| - 1] == verified;
      assert (log + [parsed])[|log| - 1] == verified;
      assert VerifiedBefore(log + [parsed], |log|, id, update.value);
      LogGrows(world, apps, apps, log, parsed);
      log := log + [parsed];
      var v := world.parse(update.value);
      if v.None? {
        return Failed(Malformed);
      }
      var d := ReadDocument(v.value, id, ChannelOf(record));
      if d.NoDocument? {
        return Failed(d.why);
      }
      var installed := InstalledVersion(apps[id]);
      if installed.None? {
        return Failed(NotInstalled);
      }
      r := Offered(Offer(installed.value, d.version, d.url, d.sha256));
      assert log[|log| - 1] == parsed;
    }

    /** `Updater::apply`: the registry afterwards is the one the protocol describes,
        other applications are not touched, and the log stays in order. */
    method Apply(id: string, t: Attempt) returns (r: Option<Failure>)
      requires Valid()
      modifies this
      ensures Valid() && old(log) <= log
      ensures var (app, why) := UpdateProtocol.Apply(world, old(Find(id)), id, t);
        r == why && apps == if app.Some? then old(apps)[id := app.value] else old(apps)
    {
      hide ReadDocument, PublisherKey.PublicKey, UpdateProtocol.Check, Vet, Install;
      var chk := Check(id, t.reply);
      if chk.Failed? {
        assert apps == if id in apps then apps[id := apps[id]] else apps;
        return Some(chk.why);
      }
      var app, offer := apps[id], chk.offer;
      assert apps == apps[id := app];
      if NotNewer(offer.available, offer.installed).None? && t.download.Some? {
        cache := cache[id := t.download.value];
      }
      var bad := Vet(world, app, id, offer, t.download);
      if bad.Some? {
        return bad;
      }
      var m := world.verifyPackage(t.download.value).value;
      VetExact(world, app, id, offer, t.download);
      OfferMeasures(world, app, id, t.reply);
      var a := Install(app, m, offer.url, app.record.channel, t);
      InstallKeepsKey(app, m, offer.url, app.record.channel, t);
      ghost var installing := Installing(id, ChannelOf(app.record), t.download.value);
      SignedStays(world, log, installing);
      var apps' := apps[id := a.app];
      LogGrows(world, apps, apps', log, installing);
      log := log + [installing];
      apps := apps';
      return a.result;
    }

    /** `Updater::set_source`. */
    method SetSource(id: string, url: string) returns (r: Option<Failure>)
      requires Valid()
      modifies this`apps
      ensures Valid()
      ensures r.Some? <==> url == "" || id !in old(apps)
      ensures apps == if r.Some? then old(apps) else old(apps)[id := Take(world, old(apps)[id], id, UpdateProtocol.SetSource(url))]
      ensures r.None? ==> apps == old(apps)[id := old(apps)[id].(record := old(apps)[id].record.(url := url))]
    {
      hide PublisherKey.PublicKey, ReadDocument;
      if url == "" || id !in apps {
        return Some(NotInstalled);
      }
      ghost var before := apps;
      apps := apps[id := apps[id].(record := apps[id].record.(url := url))];
      forall i | 0 <= i < |log|
        ensures EventOk(world, apps, log, i)
      {
        assert EventOk(world, before, log, i);
      }
      r := None;
    }
  }
}
