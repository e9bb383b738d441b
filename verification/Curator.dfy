/** The curation gate and its batch loop, budgets and latches (apps/curator/src/curator.ts). */
module Curator {
  import opened Prelude

  const DEFAULT_MAX_SUPERSEDES_PER_RUN: nat := 200

  datatype Config = Config(dryRun: bool, reportMode: bool, maxSupersedesPerRun: Option<nat>)

  function RunBudget(config: Config): nat {
    if config.maxSupersedesPerRun.Some? then config.maxSupersedesPerRun.value else DEFAULT_MAX_SUPERSEDES_PER_RUN
  }

  datatype Verdict = Approved | Rejected | Flagged

  datatype Cap = Cap(active: nat, max: nat)

  datatype PlaceHold = HeldNow | AlreadyHeld | WouldHold | NotHoldable | CapReached(cap: Cap)

  datatype Basis = Subject | Title

  /** What supersession detection found; blocked when a subject matched more than one promotion may retire. */
  datatype Plan = Plan(matches: seq<Basis>, blocked: bool)

  /**
   * A candidate with what the other components answer about it: the redaction lookup, the origin and
   * import gates, the registrar envelope, the policy pipeline, the hold triggers, the hold queue, the
   * supersession plan, and whether the promotion transaction throws.
   */
  datatype Candidate = Candidate(
    id: string,
    contentHash: string,
    wasRedacted: bool,
    originRejected: bool,
    importRejected: bool,
    registrarReview: bool,
    verdict: Verdict,
    holdTrigger: bool,
    placing: PlaceHold,
    plan: Plan,
    promoteThrows: bool)

  /** A person's (or another caller's) release of a held candidate, and whether it covers every flag. */
  datatype Release = Release(byHuman: bool, coversFlags: bool)

  datatype Outcome = Promoted | RejectedOut | FlaggedOut | Duplicate | Held

  datatype Report = NoReport | BlockedReport | PreviewReport

  datatype CurationResult = CurationResult(
    candidateId: string, contentHash: string, outcome: Outcome, hold: Option<PlaceHold>, retired: nat, report: Report)

  /** The instance's fields, and what it has done: candidates held, subjects retired, tenant hashes. */
  datatype Core = Core(holdCap: Option<Cap>, spent: nat, held: nat, retired: nat, hashes: set<string>)

  // ---------- one candidate ----------

  function Subjects(matches: seq<Basis>): nat {
    if |matches| == 0 then 0 else Subjects(Init(matches)) + if Last(matches) == Subject then 1 else 0
  }

  /** What a promotion retires: nothing when blocked, previewing, or over the run budget. */
  function ToApply(config: Config, spent: nat, plan: Plan): (r: (seq<Basis>, Report))
    ensures r.0 == [] || r.0 == plan.matches
    ensures Subjects(r.0) > 0 ==> spent + Subjects(r.0) <= RunBudget(config)
  {
    if plan.blocked then ([], BlockedReport)
    else if config.reportMode then ([], if |plan.matches| > 0 then PreviewReport else NoReport)
    else if Subjects(plan.matches) > 0 && spent + Subjects(plan.matches) > RunBudget(config) then ([], BlockedReport)
    else (plan.matches, NoReport)
  }

  /** The pipeline flagged, and no release resolves the flags. */
  predicate UnresolvedFlag(c: Candidate, release: Option<Release>) {
    c.verdict == Flagged && !(release.Some? && release.value.coversFlags)
  }

  predicate NeedsReview(c: Candidate, release: Option<Release>) {
    c.registrarReview && !(release.Some? && release.value.byHuman)
  }

  predicate IsDuplicate(s: Core, existing: Option<set<string>>, c: Candidate) {
    c.contentHash in s.hashes || c.wasRedacted || (existing.Some? && c.contentHash in existing.value)
  }

  predicate Refused(c: Candidate) {
    c.originRejected || c.importRejected
  }

  /** Everything a promotion requires: no gate refuses, none asks for review, nothing is left to resolve. */
  predicate MayPromote(s: Core, existing: Option<set<string>>, c: Candidate, release: Option<Release>) {
    !IsDuplicate(s, existing, c) && !Refused(c) && !NeedsReview(c, release) && c.verdict != Rejected &&
    !(release.None? && c.holdTrigger) && !UnresolvedFlag(c, release)
  }

  /** A hold trigger fired and nothing ahead of it decided. */
  predicate MustHold(s: Core, existing: Option<set<string>>, c: Candidate, release: Option<Release>) {
    !IsDuplicate(s, existing, c) && !Refused(c) && !NeedsReview(c, release) && c.verdict != Rejected &&
    release.None? && c.holdTrigger
  }

  function Placing(s: Core, c: Candidate): PlaceHold {
    if s.holdCap.Some? then CapReached(s.holdCap.value) else c.placing
  }

  function AfterHold(s: Core, c: Candidate): Core {
    match Placing(s, c)
    case CapReached(cap) => s.(holdCap := Some(cap))
    case NotHoldable => s
    case _ => s.(held := s.held + 1)
  }

  function AfterPromote(config: Config, s: Core, c: Candidate): Core {
    if config.dryRun then s
    else
      var n := Subjects(ToApply(config, s.spent, c.plan).0);
      s.(spent := s.spent + n, retired := s.retired + n, hashes := s.hashes + {c.contentHash})
  }

  /** The state after one candidate; a promotion that throws is rolled back and spends nothing. */
  function After(config: Config, s: Core, existing: Option<set<string>>, c: Candidate, release: Option<Release>): Core {
    if MustHold(s, existing, c, release) then AfterHold(s, c)
    else if MayPromote(s, existing, c, release) && !c.promoteThrows then AfterPromote(config, s, c)
    else s
  }

  class CuratorRun {
    const config: Config
    var holdCapReached: Option<Cap>
    var subjectSupersessionsApplied: nat
    var heldCandidates: nat
    var retiredSubjects: nat
    var storeHashes: set<string>

    constructor (config: Config, hashes: set<string>)
      ensures this.config == config && View() == Core(None, 0, 0, 0, hashes)
    {
      this.config := config;
      holdCapReached, subjectSupersessionsApplied, heldCandidates, retiredSubjects, storeHashes := None, 0, 0, 0, hashes;
    }

    ghost function View(): Core
      reads this
    {
      Core(holdCapReached, subjectSupersessionsApplied, heldCandidates, retiredSubjects, storeHashes)
    }

    method HoldCandidate(c: Candidate) returns (result: CurationResult)
      modifies this
      ensures View() == AfterHold(old(View()), c)
      ensures result.candidateId == c.id && result.contentHash == c.contentHash
      ensures result.outcome == (if Placing(old(View()), c).CapReached? || Placing(old(View()), c).NotHoldable? then FlaggedOut else Held)
      ensures result.hold == Some(Placing(old(View()), c)) && result.retired == 0 && result.report == NoReport
    {
      var placed := if holdCapReached.Some? then CapReached(holdCapReached.value) else c.placing;
      if placed.CapReached? {
        holdCapReached := Some(placed.cap);
      }
      if placed.CapReached? || placed.NotHoldable? {
        return CurationResult(c.id, c.contentHash, FlaggedOut, Some(placed), 0, NoReport);
      }
      heldCandidates := heldCandidates + 1;
      result := CurationResult(c.id, c.contentHash, Held, Some(placed), 0, NoReport);
    }

    /** None where the promotion transaction throws. */
    method PromoteCandidate(c: Candidate) returns (result: Option<CurationResult>)
      modifies this
      ensures c.promoteThrows ==> result.None? && View() == old(View())
      ensures !c.promoteThrows ==>
        View() == AfterPromote(config, old(View()), c) &&
        result == Some(CurationResult(c.id, c.contentHash, Promoted, None,
                                      Subjects(ToApply(config, old(View()).spent, c.plan).0),
                                      ToApply(config, old(View()).spent, c.plan).1))
    {
      var toApply := c.plan.matches;
      var report := NoReport;
      var subjectCount := Subjects(toApply);
      var runBudget := RunBudget(config);
      if c.plan.blocked {
        report := BlockedReport;
        toApply := [];
      } else if config.reportMode {
        if |toApply| > 0 {
          report := PreviewReport;
        }
        toApply := [];
      } else if subjectCount > 0 && subjectSupersessionsApplied + subjectCount > runBudget {
        report := BlockedReport;
        toApply := [];
      }
      if c.promoteThrows {
        return None;
      }
      var n := Subjects(toApply);
      if !config.dryRun {
        storeHashes := storeHashes + {c.contentHash};
        retiredSubjects := retiredSubjects + n;
        subjectSupersessionsApplied := subjectSupersessionsApplied + n;
      }
      result := Some(CurationResult(c.id, c.contentHash, Promoted, None, n, report));
    }

    /** One candidate through the gates, in their order; None where the promotion throws. */
    method ProcessSingle(c: Candidate, existing: Option<set<string>>, release: Option<Release>)
      returns (result: Option<CurationResult>)
      modifies this
      ensures View() == After(config, old(View()), existing, c, release)
      ensures result.None? <==> MayPromote(old(View()), existing, c, release) && c.promoteThrows
      ensures result.Some? ==> ResultOk(config, old(View()), existing, c, release, result.value)
    {
      if c.contentHash in storeHashes {
        return Some(CurationResult(c.id, c.contentHash, Duplicate, None, 0, NoReport));
      }
      if c.wasRedacted {
        return Some(CurationResult(c.id, c.contentHash, Duplicate, None, 0, NoReport));
      }
      if existing.Some? && c.contentHash in existing.value {
        return Some(CurationResult(c.id, c.contentHash, Duplicate, None, 0, NoReport));
      }
      if c.originRejected {
        return Some(CurationResult(c.id, c.contentHash, RejectedOut, None, 0, NoReport));
      }
      if c.importRejected {
        return Some(CurationResult(c.id, c.contentHash, RejectedOut, None, 0, NoReport));
      }
      if c.registrarReview && (release.None? || !release.value.byHuman) {
        return Some(CurationResult(c.id, c.contentHash, FlaggedOut, None, 0, NoReport));
      }
      if c.verdict == Rejected {
        return Some(CurationResult(c.id, c.contentHash, RejectedOut, None, 0, NoReport));
      }
      if release.None? && c.holdTrigger {
        var held := HoldCandidate(c);
        return Some(held);
      }
      var released := release.Some? && release.value.coversFlags;
      if c.verdict == Flagged && !released {
        return Some(CurationResult(c.id, c.contentHash, FlaggedOut, None, 0, NoReport));
      }
      result := PromoteCandidate(c);
    }

    /** A batch: None where a promotion threw, which ends it; otherwise one result per candidate, and the counts. */
    method ProcessBatch(candidates: seq<Candidate>) returns (batch: Option<BatchResult>)
      modifies this
      ensures View() == Batched(config, old(View()), candidates).core
      ensures batch.None? <==> Batched(config, old(View()), candidates).threw
      ensures batch.Some? ==> Faithful(config, old(View()), candidates, batch.value.results) && CountsOk(batch.value)
    {
      var r := BatchResult(|candidates|, 0, 0, 0, 0, 0, 0, []);
      var existingHashes := storeHashes;
      for i := 0 to |candidates|
        invariant Batched(config, old(View()), candidates[..i]) == Batch(View(), existingHashes, false)
        invariant Faithful(config, old(View()), candidates[..i], r.results) && r.processed == |candidates|
        invariant Counted(r)
      {
        BatchedOneMore(config, old(View()), candidates, i);
        ghost var before := r.results;
        var result := ProcessSingle(candidates[i], Some(existingHashes), None);
        if result.None? {
          ThrewStays(config, old(View()), candidates, i + 1);
          return None;
        }
        TallyCounts(r, result.value);
        r := Tally(r, result.value);
        if result.value.outcome == Promoted {
          existingHashes := existingHashes + {candidates[i].contentHash};
        }
        FaithfulOneMore(config, old(View()), candidates, before, result.value, i);
      }
      assert candidates[..|candidates|] == candidates;
      batch := Some(r);
    }
  }

  /** What an outcome means, each way. */
  ghost predicate ResultOk(config: Config, s: Core, existing: Option<set<string>>, c: Candidate, release: Option<Release>, r: CurationResult) {
    r.candidateId == c.id && r.contentHash == c.contentHash &&
    (r.outcome == Promoted <==> MayPromote(s, existing, c, release) && !c.promoteThrows) &&
    (r.outcome == Duplicate <==> IsDuplicate(s, existing, c)) &&
    (r.outcome == RejectedOut <==>
      !IsDuplicate(s, existing, c) && (Refused(c) || (!NeedsReview(c, release) && c.verdict == Rejected))) &&
    (r.outcome == Held <==>
      MustHold(s, existing, c, release) && !Placing(s, c).CapReached? && !Placing(s, c).NotHoldable?) &&
    (CapBlocked(r) <==> MustHold(s, existing, c, release) && Placing(s, c).CapReached?) &&
    r.hold == (if MustHold(s, existing, c, release) then Some(Placing(s, c)) else None) &&
    r.retired == (if r.outcome == Promoted then Subjects(ToApply(config, s.spent, c.plan).0) else 0) &&
    r.report == (if r.outcome == Promoted then ToApply(config, s.spent, c.plan).1 else NoReport)
  }

  predicate CapBlocked(r: CurationResult) {
    r.outcome == FlaggedOut && r.hold.Some? && r.hold.value.CapReached?
  }

  // ---------- a batch ----------

  datatype BatchResult = BatchResult(
    processed: nat, promoted: nat, rejected: nat, flagged: nat, duplicates: nat, held: nat, holdCapBlocked: nat,
    results: seq<CurationResult>)

  /** The batch counters after one more result. */
  function Tally(r: BatchResult, x: CurationResult): BatchResult {
    var more := r.(results := r.results + [x]);
    match x.outcome
    case Promoted => more.(promoted := r.promoted + 1)
    case RejectedOut => more.(rejected := r.rejected + 1)
    case FlaggedOut =>
      more.(flagged := r.flagged + 1, holdCapBlocked := r.holdCapBlocked + if CapBlocked(x) then 1 else 0)
    case Duplicate => more.(duplicates := r.duplicates + 1)
    case Held => more.(held := r.held + 1)
  }

  function CountOutcome(results: seq<CurationResult>, o: Outcome): nat {
    if |results| == 0 then 0 else CountOutcome(Init(results), o) + if Last(results).outcome == o then 1 else 0
  }

  function CountBlocked(results: seq<CurationResult>): nat {
    if |results| == 0 then 0 else CountBlocked(Init(results)) + if CapBlocked(Last(results)) then 1 else 0
  }

  /** Each counter counts its outcome, and they account for every result. */
  ghost predicate Counted(r: BatchResult) {
    r.promoted == CountOutcome(r.results, Promoted) && r.rejected == CountOutcome(r.results, RejectedOut) &&
    r.flagged == CountOutcome(r.results, FlaggedOut) && r.duplicates == CountOutcome(r.results, Duplicate) &&
    r.held == CountOutcome(r.results, Held) && r.holdCapBlocked == CountBlocked(r.results) &&
    r.promoted + r.rejected + r.flagged + r.duplicates + r.held == |r.results| && r.holdCapBlocked <= r.flagged
  }

  lemma TallyCounts(r: BatchResult, x: CurationResult)
    requires Counted(r)
    ensures Counted(Tally(r, x)) && Tally(r, x).results == r.results + [x] && Tally(r, x).processed == r.processed
  {
    CountSnoc(r.results, x, Promoted);
    CountSnoc(r.results, x, RejectedOut);
    CountSnoc(r.results, x, FlaggedOut);
    CountSnoc(r.results, x, Duplicate);
    CountSnoc(r.results, x, Held);
    hide CountOutcome, CountBlocked;
  }

  lemma CountSnoc(results: seq<CurationResult>, x: CurationResult, o: Outcome)
    ensures CountOutcome(results + [x], o) == CountOutcome(results, o) + if x.outcome == o then 1 else 0
    ensures CountBlocked(results + [x]) == CountBlocked(results) + if CapBlocked(x) then 1 else 0
  {
    assert Init(results + [x]) == results;
  }

  ghost predicate CountsOk(r: BatchResult) {
    Counted(r) && |r.results| == r.processed
  }

  /** The state of a batch: the core, the hashes seen, and whether a promotion threw, which freezes it. */
  datatype Batch = Batch(core: Core, existing: set<string>, threw: bool)

  function OneMore(config: Config, b: Batch, c: Candidate): Batch {
    if b.threw then b
    else if MayPromote(b.core, Some(b.existing), c, None) && c.promoteThrows then b.(threw := true)
    else
      Batch(After(config, b.core, Some(b.existing), c, None),
            if MayPromote(b.core, Some(b.existing), c, None) then b.existing + {c.contentHash} else b.existing, false)
  }

  function Batched(config: Config, s: Core, cs: seq<Candidate>): Batch {
    if |cs| == 0 then Batch(s, s.hashes, false) else OneMore(config, Batched(config, s, Init(cs)), Last(cs))
  }

  lemma BatchedOneMore(config: Config, s: Core, cs: seq<Candidate>, i: nat)
    requires i < |cs|
    ensures Batched(config, s, cs[..i + 1]) == OneMore(config, Batched(config, s, cs[..i]), cs[i])
  {
    assert Init(cs[..i + 1]) == cs[..i];
  }

  lemma {:induction false} ThrewStays(config: Config, s: Core, cs: seq<Candidate>, n: nat)
    requires n <= |cs| && Batched(config, s, cs[..n]).threw
    ensures Batched(config, s, cs) == Batched(config, s, cs[..n])
  {
    if n == |cs| {
      assert cs[..n] == cs;
    } else {
      assert Init(cs)[..n] == cs[..n];
      ThrewStays(config, s, Init(cs), n);
    }
  }

  /** Result i is what the gates say in the state the batch had reached. */
  ghost predicate FaithfulAt(config: Config, s: Core, cs: seq<Candidate>, results: seq<CurationResult>, i: nat)
    requires i < |cs| == |results|
  {
    var b := Batched(config, s, cs[..i]);
    !b.threw && ResultOk(config, b.core, Some(b.existing), cs[i], None, results[i])
  }

  ghost predicate Faithful(config: Config, s: Core, cs: seq<Candidate>, results: seq<CurationResult>) {
    |results| == |cs| && forall i: nat :: i < |cs| ==> FaithfulAt(config, s, cs, results, i)
  }

  lemma FaithfulOneMore(config: Config, s: Core, cs: seq<Candidate>, results: seq<CurationResult>, r: CurationResult, i: nat)
    requires i < |cs| && Faithful(config, s, cs[..i], results)
    requires var b := Batched(config, s, cs[..i]); !b.threw && ResultOk(config, b.core, Some(b.existing), cs[i], None, r)
    ensures Faithful(config, s, cs[..i + 1], results + [r])
  {
    var longer, more := cs[..i + 1], results + [r];
    forall k: nat | k < |longer|
      ensures FaithfulAt(config, s, longer, more, k)
    {
      assert longer[..k] == cs[..k];
      if k < i {
        assert cs[..i][..k] == cs[..k];
        assert FaithfulAt(config, s, cs[..i], results, k);
      }
    }
  }

  // ---------- within one batch ----------

  /** What a batch has promoted, and what the tenant already had, it will not promote. */
  lemma {:induction false} ExistingGrows(config: Config, s: Core, cs: seq<Candidate>, i: nat)
    requires i <= |cs|
    ensures Batched(config, s, cs[..i]).existing <= Batched(config, s, cs).existing
  {
    if i == |cs| {
      assert cs[..i] == cs;
    } else {
      assert Init(cs)[..i] == cs[..i];
      ExistingGrows(config, s, Init(cs), i);
    }
  }

  lemma PromotedBecomesKnown(config: Config, s: Core, cs: seq<Candidate>, results: seq<CurationResult>, i: nat)
    requires i < |cs| == |results| && FaithfulAt(config, s, cs, results, i) && results[i].outcome == Promoted
    ensures cs[i].contentHash in Batched(config, s, cs[..i + 1]).existing
    ensures cs[i].contentHash !in Batched(config, s, cs[..i]).existing
  {
    BatchedOneMore(config, s, cs, i);
  }

  /** No two promoted candidates of a batch share a content hash, and none was the tenant's before it. */
  lemma PromotionsAreDistinct(config: Config, s: Core, cs: seq<Candidate>, results: seq<CurationResult>, i: nat, j: nat)
    requires Faithful(config, s, cs, results) && i < |cs| && results[i].outcome == Promoted
    ensures results[i].contentHash !in s.hashes
    ensures i < j < |cs| && results[j].outcome == Promoted ==> results[i].contentHash != results[j].contentHash
  {
    assert FaithfulAt(config, s, cs, results, i);
    PromotedBecomesKnown(config, s, cs, results, i);
    assert cs[..i][..0] == [];
    ExistingGrows(config, s, cs[..i], 0);
    if i < j < |cs| && results[j].outcome == Promoted {
      assert FaithfulAt(config, s, cs, results, j);
      PromotedBecomesKnown(config, s, cs, results, j);
      assert cs[..j][..i + 1] == cs[..i + 1];
      ExistingGrows(config, s, cs[..j], i + 1);
    }
  }

  // ---------- over the life of an instance ----------

  /** The meter is honest, and within the run budget. */
  ghost predicate WithinBudget(config: Config, s: Core) {
    s.spent == s.retired && s.retired <= RunBudget(config)
  }

  lemma AfterKeepsBudget(config: Config, s: Core, existing: Option<set<string>>, c: Candidate, release: Option<Release>)
    requires WithinBudget(config, s)
    ensures WithinBudget(config, After(config, s, existing, c, release))
  {
  }

  /** The latch and the holds behind it. */
  ghost predicate LatchedAs(s: Core, s': Core) {
    s'.holdCap == s.holdCap && s'.held == s.held
  }

  /** The latch: once a cap was found reached it stays as it was found, and nothing is held. */
  lemma AfterKeepsLatch(config: Config, s: Core, existing: Option<set<string>>, c: Candidate, release: Option<Release>)
    requires s.holdCap.Some?
    ensures LatchedAs(s, After(config, s, existing, c, release))
  {
  }

  lemma {:induction false} BatchKeeps(config: Config, s: Core, cs: seq<Candidate>)
    ensures WithinBudget(config, s) ==> WithinBudget(config, Batched(config, s, cs).core)
    ensures s.holdCap.Some? ==> LatchedAs(s, Batched(config, s, cs).core)
  {
    if |cs| > 0 {
      BatchKeeps(config, s, Init(cs));
      var b := Batched(config, s, Init(cs));
      if WithinBudget(config, b.core) {
        AfterKeepsBudget(config, b.core, Some(b.existing), Last(cs), None);
      }
      if b.core.holdCap.Some? {
        AfterKeepsLatch(config, b.core, Some(b.existing), Last(cs), None);
      }
    }
  }

  /** What an instance lives through: batches, single candidates, and other writers changing the store. */
  datatype Round =
    | RunBatch(candidates: seq<Candidate>)
    | RunSingle(candidate: Candidate, release: Option<Release>)
    | StoreChanged(hashes: set<string>)

  function AfterRound(config: Config, s: Core, round: Round): Core {
    match round
    case RunBatch(cs) => Batched(config, s, cs).core
    case RunSingle(c, release) => After(config, s, None, c, release)
    case StoreChanged(hashes) => s.(hashes := hashes)
  }

  function AfterRounds(config: Config, hashes: set<string>, rounds: seq<Round>): Core {
    if |rounds| == 0 then Core(None, 0, 0, 0, hashes) else AfterRound(config, AfterRounds(config, hashes, Init(rounds)), Last(rounds))
  }

  /** Over any sequence of batches and single candidates, the subjects retired never exceed the run budget. */
  lemma {:induction false} BudgetHolds(config: Config, hashes: set<string>, rounds: seq<Round>)
    ensures AfterRounds(config, hashes, rounds).retired <= RunBudget(config)
    ensures WithinBudget(config, AfterRounds(config, hashes, rounds))
  {
    if |rounds| > 0 {
      BudgetHolds(config, hashes, Init(rounds));
      var s := AfterRounds(config, hashes, Init(rounds));
      match Last(rounds)
      case RunBatch(cs) => BatchKeeps(config, s, cs);
      case RunSingle(c, release) => AfterKeepsBudget(config, s, None, c, release);
      case StoreChanged(_) =>
    }
  }

  /**
   * Once the cap has latched, the instance holds nothing more: in batches, in single candidates with
   * or without a release, and in batches that a throwing promotion cuts short.
   */
  lemma {:induction false} LatchHolds(config: Config, hashes: set<string>, rounds: seq<Round>, more: seq<Round>)
    requires AfterRounds(config, hashes, rounds).holdCap.Some?
    ensures LatchedAs(AfterRounds(config, hashes, rounds), AfterRounds(config, hashes, rounds + more))
  {
    if |more| == 0 {
      assert rounds + more == rounds;
    } else {
      LatchHolds(config, hashes, rounds, Init(more));
      assert Init(rounds + more) == rounds + Init(more);
      var s := AfterRounds(config, hashes, rounds + Init(more));
      match Last(more)
      case RunBatch(cs) => BatchKeeps(config, s, cs);
      case RunSingle(c, release) => AfterKeepsLatch(config, s, None, c, release);
      case StoreChanged(_) =>
    }
  }

  /** Once the cap has latched, no result of any later batch is a hold. */
  lemma NothingHeldOnceLatched(config: Config, hashes: set<string>, rounds: seq<Round>, more: seq<Round>,
                               cs: seq<Candidate>, results: seq<CurationResult>, i: nat)
    requires AfterRounds(config, hashes, rounds).holdCap.Some?
    requires Faithful(config, AfterRounds(config, hashes, rounds + more), cs, results) && i < |cs|
    ensures results[i].outcome != Held
  {
    LatchHolds(config, hashes, rounds, more);
    LatchedBatchHoldsNothing(config, AfterRounds(config, hashes, rounds + more), cs, results, i);
  }

  /** Nor is the result of a single candidate. */
  lemma NoSingleHeldOnceLatched(config: Config, hashes: set<string>, rounds: seq<Round>, more: seq<Round>,
                                existing: Option<set<string>>, c: Candidate, release: Option<Release>, r: CurationResult)
    requires AfterRounds(config, hashes, rounds).holdCap.Some?
    requires ResultOk(config, AfterRounds(config, hashes, rounds + more), existing, c, release, r)
    ensures r.outcome != Held
  {
    LatchHolds(config, hashes, rounds, more);
  }

  lemma LatchedBatchHoldsNothing(config: Config, s: Core, cs: seq<Candidate>, results: seq<CurationResult>, i: nat)
    requires s.holdCap.Some? && Faithful(config, s, cs, results) && i < |cs|
    ensures results[i].outcome != Held
  {
    BatchKeeps(config, s, cs[..i]);
    assert FaithfulAt(config, s, cs, results, i);
  }

  /** Within a batch too: behind a candidate that found the cap reached, nothing is held. */
  lemma NothingHeldBehindACap(config: Config, s: Core, cs: seq<Candidate>, results: seq<CurationResult>, i: nat, j: nat)
    requires Faithful(config, s, cs, results) && i < j < |cs| && CapBlocked(results[i])
    ensures results[j].outcome != Held
  {
    assert FaithfulAt(config, s, cs, results, i) && FaithfulAt(config, s, cs, results, j);
    BatchedOneMore(config, s, cs, i);
    LatchStaysInBatch(config, s, cs, i + 1, j);
  }

  lemma {:induction false} LatchStaysInBatch(config: Config, s: Core, cs: seq<Candidate>, i: nat, j: nat)
    requires i <= j <= |cs| && Batched(config, s, cs[..i]).core.holdCap.Some?
    ensures Batched(config, s, cs[..j]).core.holdCap.Some?
  {
    if i < j {
      LatchStaysInBatch(config, s, cs, i, j - 1);
      BatchedOneMore(config, s, cs, j - 1);
      var b := Batched(config, s, cs[..j - 1]);
      AfterKeepsLatch(config, b.core, Some(b.existing), cs[j - 1], None);
    }
  }
}
