/** How a call of `install` can end, inside the application directory and outside it. The
    call is 24 steps: the 21 effects of the transaction, and then the marker, the trust
    record and the saved approvals. */
module InstallEndings {
  import opened Prelude
  import opened AppDirectory
  import opened InstallPlan
  import opened LocalTrust
  import opened Transaction
  import PublisherKey

  /** What a completed recovery leaves outside: a promoted install is recorded as trusted,
      before the journal goes. The record and the manifest name the same key. */
  function RecoveredBeside(d: Disk, b: Beside): Beside {
    if GoesForward(d) && !IsStuck(d) then AcceptQuietly(b, d.journal.value.pending.terms.key) else b
  }

  function KeyOf(q: Request): string {
    q.pending.terms.key
  }

  /** What a crash after `k` of the 24 steps leaves. */
  function CutDisk(base: Disk, q: Request, k: nat): Disk {
    AfterEffects(base, q, if k <= 21 then k else 21)
  }

  function CutBeside(b: Beside, q: Request, explicit: bool, k: nat): Beside {
    if k <= 21 then b else AfterSteps(b, KeyOf(q), explicit, k - 21)
  }

  /** The state outside that a whole install has settled stays as it is only where these
      hold already. */
  predicate Marked(b: Beside, q: Request) {
    b.owner == Some(KeyOf(q)) && b.approvals.None?
  }

  predicate TrustedAs(b: Beside, q: Request, explicit: bool) {
    explicit ==> b.trust.Bound? && b.trust.explicit
  }

  lemma CutDiskIs(base: Disk, q: Request, k: nat)
    requires Quiescent(base) && Accepts(base, q) && k <= 24
    ensures GoesForward(CutDisk(base, q, k)) <==> 12 <= k <= 20
    ensures !IsStuck(CutDisk(base, q, k))
    ensures 12 <= k <= 20 ==> CutDisk(base, q, k).journal.value.pending == q.pending
    ensures 12 <= k <= 20 ==> CutDisk(base, q, k).journal.value.target == q.target
    ensures k >= 21 ==> CutDisk(base, q, k).journal.None?
  {
    hide AfterEffects;
    InstallReaches(base, q, if k <= 21 then k else 21);
  }

  /** Outside the directory, recovery settles the trust of a promoted install, and nothing
      of one that was committed. */
  lemma RecoverySettles(base: Disk, b: Beside, q: Request, explicit: bool, k: nat)
    requires Quiescent(base) && Accepts(base, q) && k <= 24
    ensures RecoveredBeside(CutDisk(base, q, k), CutBeside(b, q, explicit, k)) ==
      if 12 <= k <= 20 then AcceptQuietly(b, KeyOf(q)) else CutBeside(b, q, explicit, k)
  {
    hide AfterEffects, AcceptQuietly, AfterSteps, CutDisk;
    CutDiskIs(base, q, k);
  }

  /** After a promoted install that recovery completed, the state outside is that of the
      whole install if and only if the marker named the key already, no approvals were
      saved, and an explicit trust had been given before. */
  lemma BesideAfterCompletion(base: Disk, b: Beside, q: Request, explicit: bool, k: nat)
    requires Quiescent(base) && Accepts(base, q) && 12 <= k <= 20
    requires Allows(b, KeyOf(q)) && PublisherKey.SameKey(KeyOf(q), KeyOf(q))
    ensures RecoveredBeside(CutDisk(base, q, k), CutBeside(b, q, explicit, k)) == AfterSteps(b, KeyOf(q), explicit, 3)
      <==> Marked(b, q) && TrustedAs(b, q, explicit)
  {
    hide CutDisk, CutBeside, RecoveredBeside, PublisherKey.SameKey;
    RecoverySettles(base, b, q, explicit, k);
    assert CutBeside(b, q, explicit, k) == b by { BeforeCommit(b, q, explicit, k); }
    AllowedIsRecorded(b, KeyOf(q), explicit);
  }

  lemma BeforeCommit(b: Beside, q: Request, explicit: bool, k: nat)
    requires k <= 21
    ensures CutBeside(b, q, explicit, k) == b
  {
  }

  /** A crash after the commit leaves the rest undone for good: nothing when all three steps
      are done, the approvals before the third, and so on back to the marker. */
  lemma BesideAfterCommit(base: Disk, b: Beside, q: Request, explicit: bool, k: nat)
    requires Quiescent(base) && Accepts(base, q) && 21 <= k <= 24
    requires Allows(b, KeyOf(q)) && PublisherKey.SameKey(KeyOf(q), KeyOf(q))
    ensures RecoveredBeside(CutDisk(base, q, k), CutBeside(b, q, explicit, k)) == AfterSteps(b, KeyOf(q), explicit, 3)
      <==> && (k <= 21 ==> b.owner == Some(KeyOf(q)))
           && (k <= 22 ==> b.trust.Bound? && b.trust.key == KeyOf(q) && TrustedAs(b, q, explicit))
           && (k <= 23 ==> b.approvals.None?)
  {
    hide CutDisk, RecoveredBeside, PublisherKey.SameKey;
    RecoverySettles(base, b, q, explicit, k);
    AllowedIsRecorded(b, KeyOf(q), explicit);
  }

  /** Running `install` of the same package again after the crash and the recovery changes
      nothing: it reports success where recovery completed the install, and a conflict
      where the install had been committed. */
  lemma RerunSettlesNothing(base: Disk, q: Request, k: nat, h: Host, m: Manifest, o: Options)
    requires Quiescent(base) && Accepts(base, q) && 12 <= k <= 24
    requires o.trusted && m.version == q.target && PublisherKey.SameKey(KeyOf(q), m.key)
    ensures var d := CutDisk(base, q, k); var r := Recover(d, h);
      Judge(TermsOf(r.record), Current(r), if GoesForward(d) then Some(d.journal.value.target) else None, m, o)
      == if k <= 20 then Healed else Refuse(AlreadyCurrent)
  {
    hide AfterEffects, Recover, PublisherKey.SameKey;
    InstallReaches(base, q, if k <= 21 then k else 21);
    RecoverResult(CutDisk(base, q, k), h);
  }

  /** All in all: a promoted install that a crash cut short and recovery completed, run
      again or not, leaves what the whole install leaves if and only if, inside, the
      contract carried over is the one the payload resolves to, and, outside, nothing was
      left to settle. */
  lemma CompletionIsWholeExact(base: Disk, b: Beside, q: Request, explicit: bool, k: nat, h: Host)
    requires Quiescent(base) && Accepts(base, q) && 12 <= k <= 20 && h == Host(q.symlinks, q.integration)
    requires Allows(b, KeyOf(q)) && PublisherKey.SameKey(KeyOf(q), KeyOf(q))
    ensures var d := CutDisk(base, q, k);
      (Recover(d, h) == AfterEffects(base, q, 21)
       && RecoveredBeside(d, CutBeside(b, q, explicit, k)) == AfterSteps(b, KeyOf(q), explicit, 3))
      <==> q.pending.runtime == q.runtime && Marked(b, q) && TrustedAs(b, q, explicit)
  {
    hide AfterEffects, Recover, RecoveredBeside, AfterSteps, CutBeside, PublisherKey.SameKey;
    BesideAfterCompletion(base, b, q, explicit, k);
    InstallReaches(base, q, k);
    InstallReaches(base, q, 21);
    RecoverResult(CutDisk(base, q, k), h);
  }

  // ----------------------------------------------------- what it means for data

  /** A first install of a key that dies after its promotion, is completed by recovery and
      run again: no marker names the owner of the data. When the user later forgets the
      trust, a package under any key is let in; after a whole install only one under the
      same key is. */
  lemma MarkerMissingExample(base: Disk, q: Request, k: nat, mine: PublisherKey.Key, other: string)
    requires Quiescent(base) && Accepts(base, q) && 12 <= k <= 20
    requires KeyOf(q) == PublisherKey.EncodeKey(mine)
    ensures var b := Beside(Absent, None, None);
      var cut := RecoveredBeside(CutDisk(base, q, k), CutBeside(b, q, false, k));
      var whole := AfterSteps(b, KeyOf(q), false, 3);
      && Allows(b, KeyOf(q)) && Allows(cut.(trust := Absent), other)
      && (Allows(whole.(trust := Absent), other) <==> other == KeyOf(q))
  {
    hide CutDisk, RecoveredBeside, PublisherKey.EncodeKey, Trimmed;
    var b := Beside(Absent, None, None);
    RecoverySettles(base, b, q, false, k);
    KeyIsItsMarker(mine);
  }

  /** The marker is not written atomically. A crash inside the write of a first install can
      leave the beginning of the key: no trust is recorded yet, and from then on every
      package of the application's own publisher is refused. */
  lemma MarkerCanTear(b: Beside, key: string, torn: string)
    requires b.trust.Absent? && torn < key && Trimmed(torn) == torn && torn != ""
    ensures Evaluate(b.(owner := Some(torn)), key).RejectRetainedData?
  {
  }
}
