/**
 * What the curation gate decides about each candidate and what a promotion retires
 * (apps/curator/src/curator.ts), spelled out gate by gate and over whole batches.
 */
module CurationOutcome {
  import opened Prelude
  import opened Curator

  lemma {:induction false} SubjectsAreCounted(matches: seq<Basis>)
    ensures Subjects(matches) == multiset(matches)[Subject]
  {
    if |matches| > 0 {
      SubjectsAreCounted(Init(matches));
      assert matches == Init(matches) + [Last(matches)];
    }
  }

  /** How many subjects a plan would retire. */
  ghost function Retirable(c: Candidate): nat {
    multiset(c.plan.matches)[Subject]
  }

  /** The run's budget: the configured one, or 200. */
  function Budget(config: Config): nat {
    match config.maxSupersedesPerRun
    case Some(n) => n
    case None => 200
  }

  // ---------- one candidate ----------

  /** The gates in their order, the first that applies deciding. */
  predicate Known(s: Core, existing: Option<set<string>>, c: Candidate) {
    c.contentHash in s.hashes || c.wasRedacted || (existing.Some? && c.contentHash in existing.value)
  }

  function Gate(s: Core, existing: Option<set<string>>, c: Candidate, release: Option<Release>): Outcome {
    if Known(s, existing, c) then Duplicate
    else if c.originRejected || c.importRejected then RejectedOut
    else if c.registrarReview && (release == None || !release.value.byHuman) then FlaggedOut
    else if c.verdict == Rejected then RejectedOut
    else if release == None && c.holdTrigger then
      (if s.holdCap != None || c.placing.CapReached? || c.placing == NotHoldable then FlaggedOut else Held)
    else if c.verdict == Flagged && (release == None || !release.value.coversFlags) then FlaggedOut
    else Promoted
  }

  /** The hold triggers are reached exactly when no gate ahead of them decides. */
  predicate HoldDecides(s: Core, existing: Option<set<string>>, c: Candidate, release: Option<Release>) {
    !Known(s, existing, c) && !c.originRejected && !c.importRejected &&
    !(c.registrarReview && (release == None || !release.value.byHuman)) &&
    c.verdict != Rejected && release == None && c.holdTrigger
  }

  lemma GatesAre(s: Core, existing: Option<set<string>>, c: Candidate, release: Option<Release>)
    ensures MayPromote(s, existing, c, release) <==> Gate(s, existing, c, release) == Promoted
    ensures MustHold(s, existing, c, release) <==> HoldDecides(s, existing, c, release)
  {
  }

  /** How many subjects the promotion of this candidate retires: all its plan's, or none. */
  ghost function Retires(config: Config, spent: nat, c: Candidate): nat {
    if c.plan.blocked || config.reportMode || spent + Retirable(c) > Budget(config) then 0 else Retirable(c)
  }

  lemma ToApplyIs(config: Config, spent: nat, c: Candidate)
    ensures Subjects(ToApply(config, spent, c.plan).0) == Retires(config, spent, c)
    ensures ToApply(config, spent, c.plan).1 ==
            if c.plan.blocked then BlockedReport
            else if config.reportMode then (if c.plan.matches == [] then NoReport else PreviewReport)
            else if Retirable(c) > 0 && spent + Retirable(c) > Budget(config) then BlockedReport
            else NoReport
  {
    SubjectsAreCounted(c.plan.matches);
    SubjectsAreCounted([]);
  }

  /**
   * What a result says, field by field: the outcome is the first gate's that applies; a hold is reported
   * exactly where the hold triggers decide; subjects are reported only by a promotion, and with which report.
   */
  lemma ResultSpelledOut(config: Config, s: Core, existing: Option<set<string>>, c: Candidate, release: Option<Release>, r: CurationResult)
    requires ResultOk(config, s, existing, c, release, r)
    requires Gate(s, existing, c, release) == Promoted ==> !c.promoteThrows
    ensures r.candidateId == c.id && r.contentHash == c.contentHash && r.outcome == Gate(s, existing, c, release)
    ensures r.hold == if !HoldDecides(s, existing, c, release) then None
                      else if s.holdCap.Some? then Some(CapReached(s.holdCap.value)) else Some(c.placing)
    ensures r.retired == if r.outcome == Promoted then Retires(config, s.spent, c) else 0
    ensures r.report ==
            if r.outcome != Promoted then NoReport
            else if c.plan.blocked then BlockedReport
            else if config.reportMode then (if c.plan.matches == [] then NoReport else PreviewReport)
            else if Retirable(c) > 0 && s.spent + Retirable(c) > Budget(config) then BlockedReport
            else NoReport
  {
    GatesAre(s, existing, c, release);
    ToApplyIs(config, s.spent, c);
  }

  /** What a candidate leaves of the instance: a hold counts or latches, a promotion spends, retires and adds its hash. */
  lemma StateSpelledOut(config: Config, s: Core, existing: Option<set<string>>, c: Candidate, release: Option<Release>)
    ensures After(config, s, existing, c, release) ==
            if HoldDecides(s, existing, c, release) then
              (if s.holdCap.Some? || c.placing == NotHoldable then s
               else if c.placing.CapReached? then s.(holdCap := Some(c.placing.cap))
               else s.(held := s.held + 1))
            else if Gate(s, existing, c, release) == Promoted && !c.promoteThrows && !config.dryRun then
              s.(spent := s.spent + Retires(config, s.spent, c), retired := s.retired + Retires(config, s.spent, c),
                 hashes := s.hashes + {c.contentHash})
            else s
  {
    GatesAre(s, existing, c, release);
    ToApplyIs(config, s.spent, c);
  }

  /**
   * Outside a dry run and a preview, a promotion that goes through retires all the subjects of an unblocked
   * plan if and only if that keeps the run within its budget, and none otherwise.
   */
  lemma PromotionRetiresAllOrNothing(config: Config, s: Core, existing: Option<set<string>>, c: Candidate, release: Option<Release>)
    requires !config.dryRun && !config.reportMode && !c.plan.blocked
    requires Gate(s, existing, c, release) == Promoted && !c.promoteThrows && Subject in c.plan.matches
    ensures var after, n := After(config, s, existing, c, release), multiset(c.plan.matches)[Subject];
            (after.retired == s.retired + n && after.spent == s.spent + n <==> s.spent + n <= Budget(config)) &&
            (after.retired == s.retired && after.spent == s.spent <==> s.spent + n > Budget(config))
  {
    StateSpelledOut(config, s, existing, c, release);
    assert Subject in multiset(c.plan.matches);
  }

  // ---------- nothing is retired ----------

  /** A preview, a dry run, or a blocked plan: this candidate can retire nothing. */
  predicate RetiresNothing(config: Config, c: Candidate) {
    config.reportMode || config.dryRun || c.plan.blocked
  }

  lemma SingleRetiresNothing(config: Config, s: Core, existing: Option<set<string>>, c: Candidate, release: Option<Release>)
    requires RetiresNothing(config, c)
    ensures var after := After(config, s, existing, c, release); after.retired == s.retired && after.spent == s.spent
  {
    StateSpelledOut(config, s, existing, c, release);
  }

  lemma {:induction false} BatchRetiresNothing(config: Config, s: Core, cs: seq<Candidate>)
    requires forall c :: c in cs ==> RetiresNothing(config, c)
    ensures var after := Batched(config, s, cs).core; after.retired == s.retired && after.spent == s.spent
  {
    if |cs| > 0 {
      BatchRetiresNothing(config, s, Init(cs));
      var b := Batched(config, s, Init(cs));
      assert Last(cs) in cs;
      SingleRetiresNothing(config, b.core, Some(b.existing), Last(cs), None);
    }
  }

  /** In report mode and in a dry run an instance retires nothing and spends nothing, over any life it has. */
  lemma {:induction false} PreviewsRetireNothing(config: Config, hashes: set<string>, rounds: seq<Round>)
    requires config.reportMode || config.dryRun
    ensures AfterRounds(config, hashes, rounds).retired == 0 && AfterRounds(config, hashes, rounds).spent == 0
  {
    if |rounds| > 0 {
      PreviewsRetireNothing(config, hashes, Init(rounds));
      var s := AfterRounds(config, hashes, Init(rounds));
      match Last(rounds)
      case RunBatch(cs) => BatchRetiresNothing(config, s, cs);
      case RunSingle(c, release) => SingleRetiresNothing(config, s, None, c, release);
      case StoreChanged(_) =>
    }
  }

  // ---------- over a batch ----------

  function TotalRetired(results: seq<CurationResult>): nat {
    if |results| == 0 then 0 else TotalRetired(Init(results)) + Last(results).retired
  }

  lemma FaithfulInit(config: Config, s: Core, cs: seq<Candidate>, results: seq<CurationResult>)
    requires Faithful(config, s, cs, results) && |cs| > 0
    ensures Faithful(config, s, Init(cs), Init(results))
  {
    forall i: nat | i < |Init(cs)|
      ensures FaithfulAt(config, s, Init(cs), Init(results), i)
    {
      assert Init(cs)[..i] == cs[..i];
      assert FaithfulAt(config, s, cs, results, i);
    }
  }

  lemma LastFaithful(config: Config, s: Core, cs: seq<Candidate>, results: seq<CurationResult>)
    requires Faithful(config, s, cs, results) && |cs| > 0
    ensures var b := Batched(config, s, Init(cs));
            !b.threw && ResultOk(config, b.core, Some(b.existing), Last(cs), None, Last(results))
  {
    assert FaithfulAt(config, s, cs, results, |cs| - 1);
    assert cs[..|cs| - 1] == Init(cs);
  }

  /** Outside a dry run, what a batch retires and spends is what its results report. */
  lemma {:induction false} BatchRetiresWhatItReports(config: Config, s: Core, cs: seq<Candidate>, results: seq<CurationResult>)
    requires Faithful(config, s, cs, results) && !config.dryRun && !Batched(config, s, cs).threw
    ensures Batched(config, s, cs).core.spent == s.spent + TotalRetired(results)
    ensures Batched(config, s, cs).core.retired == s.retired + TotalRetired(results)
  {
    if |cs| > 0 {
      FaithfulInit(config, s, cs, results);
      LastFaithful(config, s, cs, results);
      BatchRetiresWhatItReports(config, s, Init(cs), Init(results));
      var b := Batched(config, s, Init(cs));
      GatesAre(b.core, Some(b.existing), Last(cs), None);
      ResultSpelledOut(config, b.core, Some(b.existing), Last(cs), None, Last(results));
      StateSpelledOut(config, b.core, Some(b.existing), Last(cs), None);
    }
  }

  /** A batch is cut short exactly by a candidate that reaches promotion and whose promotion throws. */
  lemma {:induction false} BatchThrowsIff(config: Config, s: Core, cs: seq<Candidate>)
    ensures Batched(config, s, cs).threw <==> exists i: nat :: ThrowsAt(config, s, cs, i)
  {
    if |cs| > 0 {
      var n := |cs| - 1;
      BatchThrowsIff(config, s, cs[..n]);
      assert Init(cs) == cs[..n];
      var b := Batched(config, s, cs[..n]);
      GatesAre(b.core, Some(b.existing), cs[n], None);
      forall i: nat | i < n
        ensures ThrowsAt(config, s, cs, i) <==> ThrowsAt(config, s, cs[..n], i)
      {
        assert cs[..n][..i] == cs[..i];
      }
      if Batched(config, s, cs).threw && !b.threw {
        assert ThrowsAt(config, s, cs, n);
      }
      if i: nat :| ThrowsAt(config, s, cs, i) {
        assert i < n ==> ThrowsAt(config, s, cs[..n], i);
      }
    }
  }

  /** Candidate i is reached, no gate stops it, and its promotion throws. */
  ghost predicate ThrowsAt(config: Config, s: Core, cs: seq<Candidate>, i: nat) {
    i < |cs| && !Batched(config, s, cs[..i]).threw && cs[i].promoteThrows &&
    Gate(Batched(config, s, cs[..i]).core, Some(Batched(config, s, cs[..i]).existing), cs[i], None) == Promoted
  }

  /** The content hashes a batch has promoted so far. */
  ghost function PromotedHashes(cs: seq<Candidate>, results: seq<CurationResult>): set<string>
    requires |cs| == |results|
  {
    set i: nat | i < |cs| && results[i].outcome == Promoted :: cs[i].contentHash
  }

  lemma {:induction false} KnownArePromoted(config: Config, s: Core, cs: seq<Candidate>, results: seq<CurationResult>)
    requires Faithful(config, s, cs, results) && !Batched(config, s, cs).threw
    ensures Batched(config, s, cs).existing == s.hashes + PromotedHashes(cs, results)
    ensures s.hashes <= Batched(config, s, cs).core.hashes <= Batched(config, s, cs).existing
  {
    if |cs| > 0 {
      FaithfulInit(config, s, cs, results);
      LastFaithful(config, s, cs, results);
      KnownArePromoted(config, s, Init(cs), Init(results));
      var b := Batched(config, s, Init(cs));
      StateSpelledOut(config, b.core, Some(b.existing), Last(cs), None);
      PromotedHashesSnoc(cs, results);
    }
  }

  lemma PromotedHashesSnoc(cs: seq<Candidate>, results: seq<CurationResult>)
    requires |cs| == |results| && |cs| > 0
    ensures PromotedHashes(cs, results) ==
            PromotedHashes(Init(cs), Init(results)) + if Last(results).outcome == Promoted then {Last(cs).contentHash} else {}
  {
    var n := |cs| - 1;
    assert forall i: nat :: i < n ==> Init(cs)[i] == cs[i] && Init(results)[i] == results[i];
    forall h | h in PromotedHashes(Init(cs), Init(results))
      ensures h in PromotedHashes(cs, results)
    {
      var i: nat :| i < n && Init(results)[i].outcome == Promoted && Init(cs)[i].contentHash == h;
      assert results[i].outcome == Promoted && cs[i].contentHash == h;
    }
  }

  /**
   * A batch calls a candidate a duplicate exactly when the tenant already had its content, it was redacted,
   * or an earlier candidate of the batch with the same content was promoted.
   */
  lemma DuplicateIff(config: Config, s: Core, cs: seq<Candidate>, results: seq<CurationResult>, i: nat)
    requires Faithful(config, s, cs, results) && i < |cs|
    ensures results[i].outcome == Duplicate <==>
            cs[i].contentHash in s.hashes || cs[i].wasRedacted ||
            exists j: nat :: j < i && results[j].outcome == Promoted && cs[j].contentHash == cs[i].contentHash
  {
    PrefixFaithful(config, s, cs, results, i);
    assert FaithfulAt(config, s, cs, results, i);
    KnownArePromoted(config, s, cs[..i], results[..i]);
  }

  lemma PrefixFaithful(config: Config, s: Core, cs: seq<Candidate>, results: seq<CurationResult>, n: nat)
    requires Faithful(config, s, cs, results) && n <= |cs|
    ensures Faithful(config, s, cs[..n], results[..n])
  {
    forall i: nat | i < n
      ensures FaithfulAt(config, s, cs[..n], results[..n], i)
    {
      assert cs[..n][..i] == cs[..i];
      assert FaithfulAt(config, s, cs, results, i);
    }
  }

  /**
   * Promotion i of a batch that neither previews nor is a dry run retires its whole unblocked plan exactly
   * when the subjects retired before it, in earlier rounds and in this batch, leave room in the budget.
   */
  lemma BatchPromotionRetires(config: Config, s: Core, cs: seq<Candidate>, results: seq<CurationResult>, i: nat)
    requires Faithful(config, s, cs, results) && i < |cs| && results[i].outcome == Promoted
    requires !config.dryRun && !config.reportMode && !cs[i].plan.blocked
    ensures var n := multiset(cs[i].plan.matches)[Subject];
            results[i].retired == if s.spent + TotalRetired(results[..i]) + n <= Budget(config) then n else 0
  {
    PrefixFaithful(config, s, cs, results, i);
    assert FaithfulAt(config, s, cs, results, i);
    BatchRetiresWhatItReports(config, s, cs[..i], results[..i]);
    var b := Batched(config, s, cs[..i]);
    ToApplyIs(config, b.core.spent, cs[i]);
  }
}
