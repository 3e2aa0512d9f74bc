/** What `install` decides before it touches anything: whether it goes ahead, and the
    record it intends to commit. */
module InstallPlan {
  import opened Prelude
  import opened AppDirectory
  import PublisherKey
  import Versions

  /** What of a verified package decides about its installation; `updateUrl` is empty
      where the package declares no updates. */
  datatype Manifest = Manifest(id: string, version: Version, key: string, updateUrl: string)

  /** `trusted`: the version text is well-formed and the local trust evaluation lets the
      publisher in. `permitted`: the requested permissions are well-formed, and none is
      new or the user accepted the new ones. */
  datatype Options = Options(trusted: bool, permitted: bool, allowDowngrade: bool, source: string, channel: string)

  datatype Refusal = Untrusted | KeyChanged | AlreadyCurrent | Downgrade | NotPermitted

  datatype Judgement = Proceed | Healed | Refuse(why: Refusal)

  /** The gates in order. `installed` is the record, `current` the active version and
      `healed` the version that recovery has just completed. */
  function Judge(installed: Option<Terms>, current: Option<Version>, healed: Option<Version>, m: Manifest, o: Options): Judgement {
    var previous := if installed.Some? then current else None;
    if !o.trusted || m.version == "" then Refuse(Untrusted)
    else if installed.Some? && !PublisherKey.SameKey(installed.value.key, m.key) then Refuse(KeyChanged)
    else if previous == Some(m.version) then if healed == Some(m.version) then Healed else Refuse(AlreadyCurrent)
    else if !o.allowDowngrade && previous.Some? && Versions.Compare(m.version, previous.value) < 0 then Refuse(Downgrade)
    else if !o.permitted then Refuse(NotPermitted)
    else Proceed
  }

  /** The terms of the new record: a source of updates that is recorded stays. */
  function NewTerms(prior: Option<Terms>, m: Manifest, o: Options): Terms {
    Terms(m.id, m.version, m.key, if prior.Some? && prior.value.url != "" then prior.value.url else m.updateUrl, o.channel, o.source)
  }

  /** The record for the journal: everything else is carried over from the old one, the
      created files and the runtime contract with it. */
  function Pending(prior: Option<Record>, m: Manifest, o: Options, rest: string): Record {
    match prior
    case None => Record(NewTerms(None, m, o), {}, NO_RUNTIME, rest)
    case Some(r) => Record(NewTerms(Some(r.terms), m, o), r.created, r.runtime, rest)
  }

  function TermsOf(r: Option<Record>): Option<Terms> {
    if r.Some? then Some(r.value.terms) else None
  }

  /** What getting past the gates means. */
  lemma ProceedExact(installed: Option<Terms>, current: Option<Version>, healed: Option<Version>, m: Manifest, o: Options)
    ensures Judge(installed, current, healed, m, o).Proceed? <==>
      && o.trusted && o.permitted && m.version != ""
      && (installed.Some? ==> PublisherKey.SameKey(installed.value.key, m.key) && current != Some(m.version))
      && (installed.Some? && current.Some? && !o.allowDowngrade ==> Versions.Compare(m.version, current.value) >= 0)
    ensures Judge(installed, current, healed, m, o).Healed? ==>
      installed.Some? && current == healed == Some(m.version)
  {
    hide Versions.Compare, PublisherKey.SameKey;
  }

  /** Each other answer, in the order of the gates: the trust gate, the pinned key, the
      version that is current already, a lower version, the permissions. */
  lemma RefusalExact(installed: Option<Terms>, current: Option<Version>, healed: Option<Version>, m: Manifest, o: Options)
    ensures var j := Judge(installed, current, healed, m, o);
      var trusted := o.trusted && m.version != "";
      var bound := trusted && (installed.None? || PublisherKey.SameKey(installed.value.key, m.key));
      var again := installed.Some? && current == Some(m.version);
      var lower := installed.Some? && current.Some? && Versions.Compare(m.version, current.value) < 0 && !o.allowDowngrade;
      && (j == Refuse(Untrusted) <==> !trusted)
      && (j == Refuse(KeyChanged) <==> trusted && !bound)
      && (j == Refuse(AlreadyCurrent) <==> bound && again && healed != Some(m.version))
      && (j == Healed <==> bound && again && healed == Some(m.version))
      && (j == Refuse(Downgrade) <==> bound && !again && lower)
      && (j == Refuse(NotPermitted) <==> bound && !again && !lower && !o.permitted)
  {
    hide Versions.Compare, PublisherKey.SameKey;
  }
}
