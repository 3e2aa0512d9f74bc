/** What the runtime keeps about an application outside its directory: the local trust
    record, the marker that names the owner of its data, and the approvals saved when it
    was uninstalled. */
module LocalTrust {
  import opened Prelude
  import Base64
  import PublisherKey

  /** The record without its times: unreadable, a block without a key, or a key. */
  datatype TrustRecord = Absent | Corrupt | BlockOnly | Bound(key: string, explicit: bool, blocked: bool)

  datatype Beside = Beside(trust: TrustRecord, owner: Option<string>, approvals: Option<string>)

  datatype Decision =
    | FirstInstall | KnownUpdate | RejectCorrupt | RejectBlocked | RejectChanged | RejectRetainedData

  function Trimmed(s: string): string {
    if s != "" && (s[|s| - 1] == '\n' || s[|s| - 1] == '\r' || s[|s| - 1] == ' ') then Trimmed(s[..|s| - 1]) else s
  }

  /** The key that the marker names, if it names one. */
  function Owner(b: Beside): Option<string> {
    if b.owner.Some? && Trimmed(b.owner.value) != "" then Some(Trimmed(b.owner.value)) else None
  }

  /** `TrustStore::evaluate`, of a package whose signature is valid. */
  function Evaluate(b: Beside, key: string): Decision {
    match b.trust
    case Corrupt => RejectCorrupt
    case Absent => if Owner(b).Some? && Owner(b).value != key then RejectRetainedData else FirstInstall
    case BlockOnly => RejectBlocked
    case Bound(bound, _, blocked) =>
      if blocked then RejectBlocked else if !PublisherKey.SameKey(bound, key) then RejectChanged else KnownUpdate
  }

  predicate Allows(b: Beside, key: string) {
    Evaluate(b, key).FirstInstall? || Evaluate(b, key).KnownUpdate?
  }

  /** `TrustStore::record_accept`; None where it throws. */
  function RecordAccept(b: Beside, key: string, explicit: bool): Option<Beside> {
    match b.trust
    case Absent => Some(b.(trust := Bound(key, explicit, false)))
    case Bound(bound, was, blocked) =>
      if blocked || !PublisherKey.SameKey(bound, key) then None
      else Some(b.(trust := Bound(key, was || explicit, false)))
    case _ => None
  }

  /** As recovery calls it: never explicit, and a refusal is no failure. */
  function AcceptQuietly(b: Beside, key: string): Beside {
    if RecordAccept(b, key, false).Some? then RecordAccept(b, key, false).value else b
  }

  /** What `install` does once the transaction is committed, after `n` of three steps: the
      marker, the trust record, and the saved approvals, which are spent. */
  function AfterSteps(b: Beside, key: string, explicit: bool, n: nat): Beside {
    var marked := b.(owner := Some(key));
    if n == 0 then b
    else if n == 1 || RecordAccept(marked, key, explicit).None? then marked
    else
      var bound := RecordAccept(marked, key, explicit).value;
      if n == 2 then bound else bound.(approvals := None)
  }

  /** A key that the gate let in is recorded without objection, also after the marker has
      been written, and from then on the gate knows it. */
  lemma AllowedIsRecorded(b: Beside, key: string, explicit: bool)
    requires Allows(b, key) && PublisherKey.SameKey(key, key)
    ensures RecordAccept(b.(owner := Some(key)), key, explicit).Some? && RecordAccept(b, key, explicit).Some?
    ensures Evaluate(AfterSteps(b, key, explicit, 3), key).KnownUpdate?
    ensures Evaluate(AcceptQuietly(b, key), key).KnownUpdate?
  {
    hide PublisherKey.SameKey;
  }

  /** Once the trust record is forgotten only the marker stands between the data and a
      package under another key. */
  lemma ForgottenGateExact(b: Beside, key: string)
    ensures Allows(b.(trust := Absent), key) <==> Owner(b).None? || Owner(b).value == key
  {
  }

  /** What the gate lets in: an unknown publisher where nobody else owns the data, and
      the publisher whose key is on record and not blocked. */
  lemma GateExact(b: Beside, key: string)
    ensures Allows(b, key) <==>
      || (b.trust.Absent? && (Owner(b).None? || Owner(b).value == key))
      || (b.trust.Bound? && !b.trust.blocked && PublisherKey.SameKey(b.trust.key, key))
    ensures Evaluate(b, key).RejectBlocked? <==> b.trust.BlockOnly? || (b.trust.Bound? && b.trust.blocked)
    ensures Evaluate(b, key).RejectRetainedData? <==> b.trust.Absent? && Owner(b).Some? && Owner(b).value != key
  {
    hide PublisherKey.SameKey;
  }

  predicate IsBlank(c: char) {
    c == '\n' || c == '\r' || c == ' '
  }

  /** The owner is the marker without the blanks at its end, if that leaves something. */
  lemma {:induction false} TrimmedExact(s: string)
    ensures Trimmed(s) <= s && (Trimmed(s) == "" || !IsBlank(Trimmed(s)[|Trimmed(s)| - 1]))
    ensures forall k :: |Trimmed(s)| <= k < |s| ==> IsBlank(s[k])
  {
    if s != "" && IsBlank(s[|s| - 1]) {
      TrimmedExact(s[..|s| - 1]);
      assert forall k :: 0 <= k < |s| - 1 ==> s[k] == s[..|s| - 1][k];
    }
  }

  // ------------------------------------------------------------- the marker

  /** The text ends in something that is not trimmed away. */
  predicate EndsFirmly(s: string) {
    s != "" && s[|s| - 1] != '\n' && s[|s| - 1] != '\r' && s[|s| - 1] != ' '
  }

  lemma {:induction false} EncodingEndsFirmly(b: seq<Byte>)
    requires b != []
    ensures EndsFirmly(Base64.Encode(b))
  {
    hide Base64.Word, Base64.Digit, Base64.Symbol, Base64.Encode;
    Base64.EncodeUnfolds(b);
    SymbolsAreFirm();
    var s := Base64.Encode(b);
    if |b| > 3 {
      EncodingEndsFirmly(b[3..]);
      var rest := Base64.Encode(b[3..]);
      assert s[|s| - 1] == rest[|rest| - 1];
    } else {
      Base64.EncodeUnfolds([]);
      assert |b| == 3 ==> b[3..] == [];
      assert |s| == 4;
    }
  }

  lemma SymbolsAreFirm()
    ensures forall v: Base64.Sextet :: Base64.Symbol(v) != '\n' && Base64.Symbol(v) != '\r' && Base64.Symbol(v) != ' '
  {
  }

  /** A marker holding a key names that key. */
  lemma KeyIsItsMarker(k: PublisherKey.Key)
    ensures var key := PublisherKey.EncodeKey(k); key != "" && Trimmed(key) == key
  {
    hide Base64.Encode;
    EncodingEndsFirmly(k);
    var s, key := Base64.Encode(k), PublisherKey.EncodeKey(k);
    assert key == PublisherKey.PREFIX + s && key[|key| - 1] == s[|s| - 1];
    assert EndsFirmly(key);
  }
}
