/** What update.json has to say for an offer to be made, on the parsed document itself,
    and which answer `check` gives in every other case. */
module UpdateDocument {
  import opened Prelude
  import opened Json
  import opened InstallPlan
  import opened UpdateProtocol
  import PublisherKey
  import Versions

  predicate IsDigest(s: string) {
    |s| == 64 && forall c :: c in s ==> '0' <= c <= '9' || 'a' <= c <= 'f'
  }

  /** The text of a member that is there and not empty. */
  predicate Says(v: Value, key: string, text: string) {
    v.JObj? && key in v.members && v.members[key] == JStr(text) && text != ""
  }

  predicate HasObject(v: Value, key: string) {
    v.JObj? && key in v.members && v.members[key].JObj?
  }

  /** An object whose format version, where it has one, is the known one. */
  predicate IsKnownFormat(v: Value) {
    v.JObj? && ("lexeVersion" in v.members ==> v.members["lexeVersion"] == JNull || v.members["lexeVersion"] == JStr("0.1"))
  }

  /** The entry of a channel: its version, and address and digest of its package. */
  predicate EntryTells(entry: Value, version: string, url: string, sha256: string) {
    && Says(entry, "version", version) && HasObject(entry, "package")
    && Says(entry.members["package"], "url", url) && Says(entry.members["package"], "sha256", sha256) && IsDigest(sha256)
  }

  predicate Tells(v: Value, id: string, channel: string, version: string, url: string, sha256: string) {
    && IsKnownFormat(v) && Says(v, "id", id)
    && HasObject(v, "channels") && HasObject(v.members["channels"], channel)
    && EntryTells(v.members["channels"].members[channel], version, url, sha256)
  }

  ghost predicate Offers(v: Value, id: string, channel: string) {
    exists version, url, sha256 :: Tells(v, id, channel, version, url, sha256)
  }

  /** An acceptable head that names some other application. */
  ghost predicate IsOther(v: Value, id: string) {
    IsKnownFormat(v) && exists other :: Says(v, "id", other) && other != id
  }

  lemma TextExact(v: Value, key: string, s: string)
    ensures Text(v, key) == Some(s) <==> Says(v, key, s)
  {
  }

  lemma ObjectExact(v: Value, key: string)
    ensures Member(v, key).Some? && Member(v, key).value.JObj? <==> HasObject(v, key)
    ensures HasObject(v, key) ==> Member(v, key).value == v.members[key]
  {
  }

  lemma KnownFormatExact(v: Value)
    ensures IsKnownFormat(v) <==> v.JObj? && (Member(v, "lexeVersion").Some? ==> Member(v, "lexeVersion").value == JStr("0.1"))
  {
  }

  lemma DigestExact(s: string)
    ensures IsSha256Hex(s) <==> IsDigest(s)
  {
    assert forall i :: 0 <= i < |s| ==> s[i] in s;
  }

  lemma EntryExact(entry: Value, version: string, url: string, sha256: string)
    requires entry.JObj?
    ensures ReadEntry(entry) == Document(version, url, sha256) <==> EntryTells(entry, version, url, sha256)
    ensures ReadEntry(entry).Document? || ReadEntry(entry) == NoDocument(Malformed)
  {
    hide Member, Text, IsSha256Hex, IsDigest, Says, HasObject;
    TextExact(entry, "version", version);
    ObjectExact(entry, "package");
    DigestExact(sha256);
    if HasObject(entry, "package") {
      AnObject(entry, "package");
      var p := entry.members["package"];
      TextExact(p, "url", url);
      TextExact(p, "sha256", sha256);
    }
  }

  lemma DocumentTells(v: Value, id: string, channel: string, version: string, url: string, sha256: string)
    ensures ReadDocument(v, id, channel) == Document(version, url, sha256) <==> Tells(v, id, channel, version, url, sha256)
  {
    hide Member, Text, Says, HasObject, IsKnownFormat, ReadEntry, EntryTells;
    KnownFormatExact(v);
    TextExact(v, "id", id);
    ObjectExact(v, "channels");
    if HasObject(v, "channels") {
      AnObject(v, "channels");
      var channels := v.members["channels"];
      ObjectExact(channels, channel);
      if HasObject(channels, channel) {
        AnObject(channels, channel);
        EntryExact(channels.members[channel], version, url, sha256);
      }
    }
  }

  lemma AnObject(v: Value, key: string)
    requires HasObject(v, key)
    ensures v.JObj? && key in v.members && v.members[key].JObj?
  {
  }

  lemma OtherExact(v: Value, id: string, channel: string)
    ensures ReadDocument(v, id, channel) == NoDocument(WrongId) <==> IsOther(v, id)
    ensures ReadDocument(v, id, channel).NoDocument? ==> ReadDocument(v, id, channel).why in {WrongId, Malformed}
  {
    hide Member, Text, Says, HasObject, IsKnownFormat, ReadEntry;
    KnownFormatExact(v);
    var channels := Member(v, "channels");
    if channels.Some? && channels.value.JObj? {
      var entry := Member(channels.value, channel);
      if entry.Some? && entry.value.JObj? {
        EntryExact(entry.value, "", "", "");
      }
    }
    if Text(v, "id").Some? {
      TextExact(v, "id", Text(v, "id").value);
    }
    if other :| Says(v, "id", other) && other != id {
      TextExact(v, "id", other);
    }
  }

  /** The document is read as an offer exactly if it tells one, in these very words; as
      that of another application exactly if its head names one; else it is malformed. */
  lemma DocumentExact(v: Value, id: string, channel: string)
    ensures forall version, url, sha256 ::
      ReadDocument(v, id, channel) == Document(version, url, sha256) <==> Tells(v, id, channel, version, url, sha256)
    ensures ReadDocument(v, id, channel).Document? <==> Offers(v, id, channel)
    ensures ReadDocument(v, id, channel) == NoDocument(WrongId) <==> IsOther(v, id)
    ensures ReadDocument(v, id, channel) == NoDocument(Malformed) <==> !Offers(v, id, channel) && !IsOther(v, id)
  {
    hide ReadDocument, Tells, IsOther;
    OtherExact(v, id, channel);
    forall version, url, sha256
      ensures ReadDocument(v, id, channel) == Document(version, url, sha256) <==> Tells(v, id, channel, version, url, sha256)
    {
      DocumentTells(v, id, channel, version, url, sha256);
    }
    var d := ReadDocument(v, id, channel);
    if d.Document? {
      assert d == Document(d.version, d.url, d.sha256);
      assert Tells(v, id, channel, d.version, d.url, d.sha256);
    }
  }

  // ------------------------------------------------------------------- the answer

  /** Both files were answered, of at most 1 MiB and 1 KiB. */
  predicate Fetched(reply: Reply) {
    reply.update.Some? && |reply.update.value| <= 1048576 && reply.signature.Some? && |reply.signature.value| <= 1024
  }

  /** The 64 bytes of the signature are one of the document under the recorded key. */
  predicate IsSigned(w: World, app: App, reply: Reply, key: PublisherKey.Key)
    requires Fetched(reply)
  {
    && PublisherKey.IsKeyText(app.record.key, key)
    && |reply.signature.value| == 64 && w.verify(reply.update.value, reply.signature.value, key)
  }

  /** What the answer says of a document that was verified and parsed. */
  ghost predicate IsReading(app: App, id: string, v: Value, r: CheckResult) {
    var channel := if app.record.channel == "" then "stable" else app.record.channel;
    var versioned := app.record.version != "" || app.current.Some?;
    && (r.Offered? <==> Offers(v, id, channel) && versioned)
    && (r.Offered? ==>
          && Tells(v, id, channel, r.offer.available, r.offer.url, r.offer.sha256)
          && (app.record.version != "" ==> r.offer.installed == app.record.version)
          && (app.record.version == "" ==> Some(r.offer.installed) == app.current))
    && (r == CheckResult.Failed(WrongId) <==> IsOther(v, id))
    && (r == CheckResult.Failed(Malformed) <==> !Offers(v, id, channel) && !IsOther(v, id))
    && (r == CheckResult.Failed(NotInstalled) <==> Offers(v, id, channel) && !versioned)
  }

  /** The answer of `check`, from the first obstacle to the offer. */
  ghost predicate IsAnswer(w: World, found: Option<App>, id: string, reply: Reply, r: CheckResult) {
    match found
    case None => r == CheckResult.Failed(NotInstalled)
    case Some(app) =>
      var asked := app.record.url != "";
      && (r == CheckResult.Failed(NoSource) <==> !asked)
      && (r == CheckResult.Failed(Unreachable) <==> asked && !Fetched(reply))
      && (asked && Fetched(reply) ==>
            && (r == CheckResult.Failed(UnreadableKey) <==> forall key :: !PublisherKey.IsKeyText(app.record.key, key))
            && (r == CheckResult.Failed(BadSignature) <==>
                  (exists key :: PublisherKey.IsKeyText(app.record.key, key) && !IsSigned(w, app, reply, key)))
            && (forall key :: IsSigned(w, app, reply, key) ==>
                  match w.parse(reply.update.value)
                  case None => r == CheckResult.Failed(Malformed)
                  case Some(v) => IsReading(app, id, v, r))
            && (r.Offered? ==> exists key :: IsSigned(w, app, reply, key)))
      && (r.Offered? ==> asked && Fetched(reply))
  }

  lemma FetchedExact(reply: Reply)
    ensures Fetched(reply) <==>
      Bounded(reply.update, MAX_UPDATE_JSON).Some? && Bounded(reply.signature, MAX_SIGNATURE).Some?
    ensures Fetched(reply) ==>
      Bounded(reply.update, MAX_UPDATE_JSON) == reply.update && Bounded(reply.signature, MAX_SIGNATURE) == reply.signature
  {
  }

  /** The key that is recorded, if its text spells one. */
  lemma KeyTextExact(text: string)
    ensures forall key :: PublisherKey.PublicKey(text) == Some(key) <==> PublisherKey.IsKeyText(text, key)
  {
    hide PublisherKey.PublicKey;
    forall key ensures PublisherKey.PublicKey(text) == Some(key) <==> PublisherKey.IsKeyText(text, key) {
      PublisherKey.SpellingExact(text, key);
    }
  }

  lemma ReadingExact(app: App, id: string, v: Value)
    ensures IsReading(app, id, v,
      match ReadDocument(v, id, ChannelOf(app.record))
      case NoDocument(why) => CheckResult.Failed(why)
      case Document(version, url, sha) =>
        if InstalledVersion(app).None? then CheckResult.Failed(NotInstalled)
        else Offered(Offer(InstalledVersion(app).value, version, url, sha)))
  {
    hide ReadDocument, Tells, Offers, IsOther;
    DocumentExact(v, id, ChannelOf(app.record));
    var d := ReadDocument(v, id, ChannelOf(app.record));
    if d.Document? {
      assert d == Document(d.version, d.url, d.sha256);
    }
  }

  /** What `check` answers once both files are there. */
  lemma FetchedAnswer(w: World, app: App, id: string, reply: Reply)
    requires app.record.url != "" && Fetched(reply)
    ensures var r, update, sig := UpdateProtocol.Check(w, Some(app), id, reply), reply.update.value, reply.signature.value;
      match PublisherKey.PublicKey(app.record.key)
      case None => r == CheckResult.Failed(UnreadableKey)
      case Some(key) =>
        if |sig| != 64 || !w.verify(update, sig, key) then r == CheckResult.Failed(BadSignature)
        else
          match w.parse(update)
          case None => r == CheckResult.Failed(Malformed)
          case Some(v) => IsReading(app, id, v, r) && (r.Failed? ==> r.why in {WrongId, Malformed, NotInstalled})
  {
    hide ReadDocument, PublisherKey.PublicKey, IsReading, InstalledVersion, ChannelOf, Bounded;
    FetchedExact(reply);
    if w.parse(reply.update.value).Some? {
      var v := w.parse(reply.update.value).value;
      ReadingExact(app, id, v);
      KindsOfFailure(app, id, v);
    }
  }

  /** An offer is made exactly for a signed document that tells it, and every other answer
      has exactly its own reason. */
  lemma CheckExact(w: World, found: Option<App>, id: string, reply: Reply)
    ensures IsAnswer(w, found, id, reply, UpdateProtocol.Check(w, found, id, reply))
  {
    hide ReadDocument, PublisherKey.PublicKey, PublisherKey.IsKeyText, IsReading, UpdateProtocol.Check;
    if found.None? || found.value.record.url == "" || !Fetched(reply) {
      NothingFetched(w, found, id, reply);
    } else {
      var app := found.value;
      KeyTextExact(app.record.key);
      FetchedAnswer(w, app, id, reply);
      var pinned := PublisherKey.PublicKey(app.record.key);
      if pinned.Some? {
        assert PublisherKey.IsKeyText(app.record.key, pinned.value);
        assert forall key :: PublisherKey.IsKeyText(app.record.key, key) ==> key == pinned.value;
        assert (exists key :: PublisherKey.IsKeyText(app.record.key, key) && !IsSigned(w, app, reply, key))
            <==> !IsSigned(w, app, reply, pinned.value);
      }
    }
  }

  lemma NothingFetched(w: World, found: Option<App>, id: string, reply: Reply)
    requires found.None? || found.value.record.url == "" || !Fetched(reply)
    ensures UpdateProtocol.Check(w, found, id, reply) == CheckResult.Failed(
      if found.None? then NotInstalled else if found.value.record.url == "" then NoSource else Unreachable)
  {
    FetchedExact(reply);
  }

  lemma KindsOfFailure(app: App, id: string, v: Value)
    ensures var d := ReadDocument(v, id, ChannelOf(app.record));
      d.NoDocument? ==> d.why == WrongId || d.why == Malformed
  {
    hide ReadDocument;
    OtherExact(v, id, ChannelOf(app.record));
  }

  // ------------------------------------------------------------- after `apply`

  /** The terms of the new record: identity and key of the package, the channel that was
      recorded, the address the package came from, and the source of updates as before;
      `before` is the record that recovery has settled. */
  predicate IsUpdated(before: Terms, next: Terms, m: Manifest, channel: string, from: string) {
    && next.id == m.id && next.version == m.version && next.key == m.key
    && next.channel == channel && next.source == from
    && (before.url != "" ==> next.url == before.url)
    && (before.url == "" ==> next.url == m.updateUrl)
  }

  /** `app` with the install that was cut short completed. */
  predicate IsSettled(app: App, after: App) {
    && (app.pending.None? ==> after == app)
    && (app.pending.Some? ==>
          after.record == app.pending.value && after.current == Some(app.pending.value.version) && after.pending.None?)
  }

  /** A refusal before the install leaves everything as it was, and one by the install what
      recovery has settled; a success leaves the new record, or the work was done already;
      an interrupted install leaves what was there, or the new record pending. */
  lemma ApplyExact(w: World, app: App, id: string, t: Attempt)
    ensures var (a, why) := UpdateProtocol.Apply(w, Some(app), id, t);
      && a.Some?
      && (why.Some? && !why.value.Declined? && !why.value.Interrupted? ==> a.value == app)
      && (why.Some? && why.value.Declined? ==> IsSettled(app, a.value))
      && (why.None? || why.value.Interrupted? ==>
            && var r := UpdateProtocol.Check(w, Some(app), id, t.reply);
            && r.Offered? && t.download.Some? && w.verifyPackage(t.download.value).Some?
            && var m := w.verifyPackage(t.download.value).value;
               var before := if app.pending.Some? then app.pending.value else app.record;
               && (why.None? ==>
                     || (IsSettled(app, a.value) && a.value.current == Some(m.version))
                     || (IsUpdated(before, a.value.record, m, app.record.channel, r.offer.url)
                         && a.value.current == Some(m.version) && a.value.pending.None?))
               && (why == Some(Interrupted) ==>
                     || IsSettled(app, a.value)
                     || (a.value.pending.Some?
                         && IsUpdated(before, a.value.pending.value, m, app.record.channel, r.offer.url))))
  {
    hide UpdateProtocol.Check, Vet, Judge, Versions.Compare, PublisherKey.SameKey;
    EarlyFailures(w, app, id, t);
    var r := Recovered(app);
    var chk := UpdateProtocol.Check(w, Some(app), id, t.reply);
    if chk.Offered? && Vet(w, app, id, chk.offer, t.download).None? {
      var m := w.verifyPackage(t.download.value).value;
      var healed := if app.pending.Some? then Some(app.pending.value.version) else None;
      ProceedExact(Some(r.record), r.current, healed, m, OptionsOf(t, chk.offer.url, app.record.channel));
    }
  }

  lemma EarlyFailures(w: World, app: App, id: string, t: Attempt)
    ensures var r := UpdateProtocol.Check(w, Some(app), id, t.reply);
      && (r.Failed? ==> !r.why.Declined? && !r.why.Interrupted?)
      && (r.Offered? ==>
            var bad := Vet(w, app, id, r.offer, t.download);
            bad.Some? ==> !bad.value.Declined? && !bad.value.Interrupted?)
  {
    hide ReadDocument, PublisherKey.PublicKey, Versions.Compare, IsReading, IsAnswer;
    if app.record.url != "" && Fetched(t.reply) {
      FetchedAnswer(w, app, id, t.reply);
    } else {
      NothingFetched(w, Some(app), id, t.reply);
    }
  }
}
