/** The verdict composed from memories, chain, manifest and anchors (packages/eval-surface/src/provenance-integrity.ts). */
module ProvenanceIntegrity {
  import opened Prelude
  import opened HashLinks
  import opened AuditChain
  import opened AuditVerify
  import opened AuditAnchor
  import opened AnchorCommitment
  import opened ExceptionManifest
  import opened BreakClassifier
  import Runs = AnchorRuns
  import Json

  datatype Memory = Memory(content: string, contentHash: string, source: string)

  const VALID_SOURCES := {"claude_session", "manual", "import", "mcp"}

  datatype AnchorStatus = NoAnchorsYet | Consistent | Divergent

  datatype AnchorCounts = AnchorCounts(truncated: nat, rewritten: nat, logIntegrity: nat)

  datatype Verdict = Verdict(
    passed: bool,
    failedChecks: nat,
    totalChecks: nat,
    contentHashMismatches: nat,
    invalidSources: nat,
    tamperSignatures: nat,
    chainForks: nat,
    documentedExceptions: nat,
    anchorStatus: AnchorStatus,
    anchorCounts: AnchorCounts)

  ghost predicate MemoryOk(contentHashOf: string -> string, m: Memory) {
    contentHashOf(m.content) == m.contentHash && m.source in VALID_SOURCES
  }

  /** Every memory's content hashes to what is stored, and its source is a known one. */
  ghost predicate MemoriesOk(contentHashOf: string -> string, ms: seq<Memory>) {
    forall m :: m in ms ==> MemoryOk(contentHashOf, m)
  }

  function CountReason(breaks: seq<AnchorBreak>, r: AnchorReason): nat {
    if |breaks| == 0 then 0 else CountReason(Init(breaks), r) + if Last(breaks).reason == r then 1 else 0
  }

  lemma {:induction false} ReasonsAccountedFor(breaks: seq<AnchorBreak>)
    ensures CountReason(breaks, HistoryTruncated) + CountReason(breaks, HistoryRewritten) +
            CountReason(breaks, AnchorHashMismatch) + CountReason(breaks, AnchorLinkMismatch) == |breaks|
  {
    if |breaks| > 0 {
      ReasonsAccountedFor(Init(breaks));
    }
  }

  /** No break is lost: the three counters add up, and each counts its own class. */
  method CountAnchorBreaks(breaks: seq<AnchorBreak>) returns (counts: AnchorCounts)
    ensures counts.truncated == CountReason(breaks, HistoryTruncated)
    ensures counts.rewritten == CountReason(breaks, HistoryRewritten)
    ensures counts.truncated + counts.rewritten + counts.logIntegrity == |breaks|
    ensures counts.truncated == |WithReason(breaks, HistoryTruncated)|
    ensures counts.rewritten == |WithReason(breaks, HistoryRewritten)|
  {
    CountIsPositions(breaks, HistoryTruncated);
    CountIsPositions(breaks, HistoryRewritten);
    counts := AnchorCounts(0, 0, 0);
    for i := 0 to |breaks|
      invariant counts.truncated == CountReason(breaks[..i], HistoryTruncated)
      invariant counts.rewritten == CountReason(breaks[..i], HistoryRewritten)
      invariant counts.truncated + counts.rewritten + counts.logIntegrity == i
    {
      assert Init(breaks[..i + 1]) == breaks[..i];
      match breaks[i].reason {
        case HistoryTruncated => counts := counts.(truncated := counts.truncated + 1);
        case HistoryRewritten => counts := counts.(rewritten := counts.rewritten + 1);
        case AnchorHashMismatch => counts := counts.(logIntegrity := counts.logIntegrity + 1);
        case AnchorLinkMismatch => counts := counts.(logIntegrity := counts.logIntegrity + 1);
      }
    }
    assert breaks[..|breaks|] == breaks;
  }

  /** Positions of breaks with a reason. */
  ghost function WithReason(breaks: seq<AnchorBreak>, r: AnchorReason): set<nat> {
    set i: nat | i < |breaks| && breaks[i].reason == r
  }

  lemma {:induction false} CountIsPositions(breaks: seq<AnchorBreak>, r: AnchorReason)
    ensures CountReason(breaks, r) == |WithReason(breaks, r)|
  {
    if |breaks| > 0 {
      var n := |breaks| - 1;
      CountIsPositions(breaks[..n], r);
      assert Init(breaks) == breaks[..n];
      if breaks[n].reason == r {
        assert WithReason(breaks, r) == WithReason(breaks[..n], r) + {n};
      } else {
        assert WithReason(breaks, r) == WithReason(breaks[..n], r);
      }
    }
  }

  /** Positions of memories whose content does not hash to what is stored. */
  ghost function Mismatching(contentHashOf: string -> string, ms: seq<Memory>): set<nat> {
    set i: nat | i < |ms| && contentHashOf(ms[i].content) != ms[i].contentHash
  }

  /** Positions of memories of unknown source. */
  ghost function Unsourced(ms: seq<Memory>): set<nat> {
    set i: nat | i < |ms| && ms[i].source !in {"claude_session", "manual", "import", "mcp"}
  }

  lemma OneMismatchMore(contentHashOf: string -> string, ms: seq<Memory>, i: nat)
    requires i < |ms|
    ensures |Mismatching(contentHashOf, ms[..i + 1])| ==
            |Mismatching(contentHashOf, ms[..i])| + if contentHashOf(ms[i].content) != ms[i].contentHash then 1 else 0
  {
    CountOneMore(Mismatching(contentHashOf, ms[..i]), Mismatching(contentHashOf, ms[..i + 1]), i,
            contentHashOf(ms[i].content) != ms[i].contentHash);
  }

  lemma OneUnsourcedMore(ms: seq<Memory>, i: nat)
    requires i < |ms|
    ensures |Unsourced(ms[..i + 1])| == |Unsourced(ms[..i])| + if ms[i].source !in VALID_SOURCES then 1 else 0
  {
    CountOneMore(Unsourced(ms[..i]), Unsourced(ms[..i + 1]), i, ms[i].source !in VALID_SOURCES);
  }

  method CountMemoryFailures(contentHashOf: string -> string, ms: seq<Memory>) returns (mismatches: nat, invalid: nat)
    ensures mismatches + invalid == 0 <==> MemoriesOk(contentHashOf, ms)
    ensures mismatches == |Mismatching(contentHashOf, ms)| && invalid == |Unsourced(ms)|
    ensures mismatches <= |ms| && invalid <= |ms|
  {
    mismatches, invalid := 0, 0;
    for i := 0 to |ms|
      invariant mismatches <= i && invalid <= i
      invariant mismatches == |Mismatching(contentHashOf, ms[..i])| && invalid == |Unsourced(ms[..i])|
      invariant mismatches + invalid == 0 <==> MemoriesOk(contentHashOf, ms[..i])
    {
      OneMismatchMore(contentHashOf, ms, i);
      OneUnsourcedMore(ms, i);
      assert ms[..i + 1] == ms[..i] + [ms[i]];
      assert MemoriesOk(contentHashOf, ms[..i + 1]) <==> MemoriesOk(contentHashOf, ms[..i]) && MemoryOk(contentHashOf, ms[i]);
      if contentHashOf(ms[i].content) != ms[i].contentHash {
        mismatches := mismatches + 1;
      }
      if ms[i].source !in VALID_SOURCES {
        invalid := invalid + 1;
      }
    }
    assert ms[..|ms|] == ms;
  }

  /** What the verdict passes on: nothing a fork or an excused break can spoil, everything else. */
  ghost predicate Passes(contentHashOf: string -> string, sha: Digest, ms: seq<Memory>, rows: seq<Row>, log: seq<AnchorRecord>,
                         manifest: Option<Manifest>)
  {
    MemoriesOk(contentHashOf, ms) &&
    Classification(Breaks(sha, rows), manifest, TuplesById(rows)).buckets.tampers == [] &&
    LogOk(sha, Hashed(rows), log)
  }

  /** An absent manifest is no amnesty; one that is there but fails its gates is an error, never ignored. */
  function LoadManifest(sha: Digest, file: Option<Option<Json.Value>>): Result<Option<Manifest>, ManifestError> {
    match file
    case None => Ok(None)
    case Some(parsed) =>
      match ReadManifest(sha, parsed)
      case Ok(m) => Ok(Some(m))
      case Err(e) => Err(e)
  }

  /** What each number of the verdict counts. */
  ghost predicate Counts(contentHashOf: string -> string, sha: Digest, ms: seq<Memory>, rows: seq<Row>, log: seq<AnchorRecord>,
                         manifest: Option<Manifest>, v: Verdict)
  {
    var breaks := Breaks(sha, rows);
    var anchorBreaks := AnchorBreaks(sha, Hashed(rows), log);
    v.contentHashMismatches == |Mismatching(contentHashOf, ms)| && v.invalidSources == |Unsourced(ms)| &&
    v.chainForks == |ForkPositions(breaks)| &&
    v.documentedExceptions == |DocumentedPositions(breaks, manifest, rows)| &&
    v.tamperSignatures == |breaks| - v.chainForks - v.documentedExceptions &&
    v.anchorCounts.truncated == |WithReason(anchorBreaks, HistoryTruncated)| &&
    v.anchorCounts.rewritten == |WithReason(anchorBreaks, HistoryRewritten)| &&
    v.anchorCounts.logIntegrity == |anchorBreaks| - v.anchorCounts.truncated - v.anchorCounts.rewritten &&
    v.failedChecks == v.contentHashMismatches + v.invalidSources +
                      (if v.tamperSignatures > 0 then 1 else 0) + (if |anchorBreaks| > 0 then 1 else 0)
  }

  /** Positions of the forks. */
  ghost function ForkPositions(breaks: seq<Break>): set<nat> {
    set i: nat | i < |breaks| && breaks[i].reason == ChainFork
  }

  /** Positions of the breaks pinned, by the last entry with their row's id, as the row is stored and for their reason. */
  ghost function DocumentedPositions(breaks: seq<Break>, manifest: Option<Manifest>, rows: seq<Row>): set<nat> {
    set i: nat | i < |breaks| && manifest.Some? && PinnedAsStored(breaks[i], manifest.value.body.entries, rows)
  }

  lemma OneForkMore(breaks: seq<Break>, b: Break)
    ensures |ForkPositions(breaks + [b])| == |ForkPositions(breaks)| + if b.reason == ChainFork then 1 else 0
  {
    CountOneMore(ForkPositions(breaks), ForkPositions(breaks + [b]), |breaks|, b.reason == ChainFork);
  }

  predicate IsDocumented(b: Break, manifest: Option<Manifest>, rows: seq<Row>) {
    Documented(b, PinnedBy(manifest), TuplesById(rows))
  }

  lemma IsDocumentedIs(b: Break, manifest: Option<Manifest>, rows: seq<Row>)
    ensures IsDocumented(b, manifest, rows) <==> manifest.Some? && PinnedAsStored(b, manifest.value.body.entries, rows)
  {
    if manifest.Some? {
      DocumentedSpelledOut(b, manifest.value.body.entries, rows);
    }
  }

  lemma OneDocumentedMore(breaks: seq<Break>, b: Break, manifest: Option<Manifest>, rows: seq<Row>)
    ensures |DocumentedPositions(breaks + [b], manifest, rows)| ==
            |DocumentedPositions(breaks, manifest, rows)| + if IsDocumented(b, manifest, rows) then 1 else 0
  {
    hide PinnedAsStored, IsDocumented;
    IsDocumentedIs(b, manifest, rows);
    CountOneMore(DocumentedPositions(breaks, manifest, rows), DocumentedPositions(breaks + [b], manifest, rows), |breaks|,
            IsDocumented(b, manifest, rows));
  }

  lemma {:induction false} BucketSizes(breaks: seq<Break>, manifest: Option<Manifest>, rows: seq<Row>)
    ensures var r := Sorted3(breaks, PinnedBy(manifest), TuplesById(rows));
            |r.forks| == |ForkPositions(breaks)| && |r.documented| == |DocumentedPositions(breaks, manifest, rows)|
  {
    hide ForkPositions, DocumentedPositions;
    if |breaks| == 0 {
      NoPositions(manifest, rows);
    } else {
      BucketSizes(Init(breaks), manifest, rows);
      OneForkMore(Init(breaks), Last(breaks));
      OneDocumentedMore(Init(breaks), Last(breaks), manifest, rows);
      assert breaks == Init(breaks) + [Last(breaks)];
    }
  }

  lemma NoPositions(manifest: Option<Manifest>, rows: seq<Row>)
    ensures |ForkPositions([])| == 0 && |DocumentedPositions([], manifest, rows)| == 0
  {
  }

  method EvaluateProvenanceIntegrity(contentHashOf: string -> string, sha: Digest, memories: seq<Memory>, rows: seq<Row>,
                                     anchors: seq<AnchorRecord>, manifestFile: Option<Option<Json.Value>>)
    returns (result: Result<Verdict, ManifestError>)
    ensures result.Err? <==> LoadManifest(sha, manifestFile).Err?
    ensures result.Err? <==> manifestFile.Some? && ReadManifest(sha, manifestFile.value).Err?
    ensures result.Err? ==> result.error == ReadManifest(sha, manifestFile.value).error
    ensures result.Ok? ==>
      (result.value.passed <==>
        Passes(contentHashOf, sha, memories, rows, anchors,
               if manifestFile.None? then None else Some(ReadManifest(sha, manifestFile.value).value)))
    ensures result.Ok? ==>
      var v := result.value;
      (v.passed <==> Passes(contentHashOf, sha, memories, rows, anchors, LoadManifest(sha, manifestFile).value)) &&
      (v.passed <==> v.failedChecks == 0) && v.failedChecks <= v.totalChecks == 2 * |memories| + 2 &&
      v.tamperSignatures + v.chainForks + v.documentedExceptions == |Breaks(sha, rows)| &&
      (v.anchorStatus == Divergent <==> !LogOk(sha, Hashed(rows), anchors)) &&
      (v.anchorStatus == NoAnchorsYet <==> anchors == [])
    ensures result.Ok? ==> Counts(contentHashOf, sha, memories, rows, anchors, LoadManifest(sha, manifestFile).value, result.value)
  {
    var contentHashMismatches, invalidSources := CountMemoryFailures(contentHashOf, memories);
    var anchorResult := VerifyAnchors(sha, rows, anchors);
    NoAnchorBreaksIffLogOk(sha, Hashed(rows), anchors);
    var anchorCounts := CountAnchorBreaks(anchorResult.anchorBreaks);
    var anchorDiverged := |anchorResult.anchorBreaks| > 0;
    var anchorStatus := if anchorResult.anchorCount == 0 then NoAnchorsYet
                        else if anchorDiverged then Divergent else Consistent;
    var manifest := LoadManifest(sha, manifestFile);
    if manifest.Err? {
      return Err(manifest.error);
    }
    var classified := ClassifyChainBreaks(anchorResult.chain.breaks, manifest.value, TuplesById(rows));
    EveryBreakSorted(Breaks(sha, rows), PinnedBy(manifest.value), TuplesById(rows));
    BucketSizes(Breaks(sha, rows), manifest.value, rows);
    var tamperSignatures := |classified.buckets.tampers|;
    var passed := contentHashMismatches == 0 && invalidSources == 0 && tamperSignatures == 0 && !anchorDiverged;
    var failedChecks := contentHashMismatches + invalidSources +
                        (if tamperSignatures > 0 then 1 else 0) + (if anchorDiverged then 1 else 0);
    result := Ok(Verdict(passed, failedChecks, |memories| * 2 + 2, contentHashMismatches, invalidSources, tamperSignatures,
                         |classified.buckets.forks|, |classified.buckets.documented|, anchorStatus, anchorCounts));
  }

  lemma {:induction false} EveryBreakSorted(breaks: seq<Break>, pinned: map<string, Entry>, stored: map<string, StoredTuple>)
    ensures var r := Sorted3(breaks, pinned, stored);
            |r.documented| + |r.tampers| + |r.forks| == |breaks|
  {
    if |breaks| > 0 {
      EveryBreakSorted(Init(breaks), pinned, stored);
    }
  }

  // ---------- the verdict on whole stores ----------

  lemma {:induction false} OnlyForksNoTampers(breaks: seq<Break>, pinned: map<string, Entry>, stored: map<string, StoredTuple>)
    requires forall b :: b in breaks ==> b.reason == ChainFork
    ensures Sorted3(breaks, pinned, stored).tampers == []
  {
    if |breaks| > 0 {
      assert forall b :: b in Init(breaks) ==> b in breaks;
      OnlyForksNoTampers(Init(breaks), pinned, stored);
    }
  }

  /** Benign forks never fail the verdict: a rooted hash tree passes with no manifest at all. */
  lemma HashTreePasses(contentHashOf: string -> string, sha: Digest, ms: seq<Memory>, rows: seq<Row>, log: seq<AnchorRecord>,
                       manifest: Option<Manifest>)
    requires MemoriesOk(contentHashOf, ms) && RootedTree(sha, Chained(rows)) && LogOk(sha, Hashed(rows), log)
    ensures Passes(contentHashOf, sha, ms, rows, log, manifest)
  {
    OnlyForksIffTree(sha, rows);
    OnlyForksNoTampers(Breaks(sha, rows), PinnedBy(manifest), TuplesById(rows));
  }

  /** Without a manifest, passing means being a rooted hash tree under a witness log that agrees. */
  lemma {:induction false} NoManifestNoTampers(breaks: seq<Break>, stored: map<string, StoredTuple>)
    ensures Sorted3(breaks, map[], stored).tampers == [] <==> forall b :: b in breaks ==> b.reason == ChainFork
  {
    if |breaks| > 0 {
      NoManifestNoTampers(Init(breaks), stored);
      assert forall b :: b in breaks <==> b in Init(breaks) || b == Last(breaks);
    }
  }

  lemma PassesWithoutManifestIff(contentHashOf: string -> string, sha: Digest, ms: seq<Memory>, rows: seq<Row>, log: seq<AnchorRecord>)
    ensures Passes(contentHashOf, sha, ms, rows, log, None) <==>
            MemoriesOk(contentHashOf, ms) && RootedTree(sha, Chained(rows)) && LogOk(sha, Hashed(rows), log)
  {
    OnlyForksIffTree(sha, rows);
    NoManifestNoTampers(Breaks(sha, rows), TuplesById(rows));
  }

  /** Every run of inserts and anchorings from an empty store passes, unless a call appended to a log it had not read. */
  lemma HonestRunsPass(contentHashOf: string -> string, sha: Digest, ms: seq<Memory>, n: nat, steps: seq<Runs.Step>,
                       manifest: Option<Manifest>)
    requires MemoriesOk(contentHashOf, ms) && Runs.NoStaleAppend(sha, n, steps)
    ensures var s := Runs.Run(sha, n, steps);
            Passes(contentHashOf, sha, ms, s.rows, s.log, manifest)
  {
    var s := Runs.Run(sha, n, steps);
    Runs.NoStaleAppendVerifies(sha, n, steps);
    NoBreaksIffPath(sha, s.rows);
    NoAnchorBreaksIffLogOk(sha, Hashed(s.rows), s.log);
    OnlyForksNoTampers([], PinnedBy(manifest), TuplesById(s.rows));
  }

  /**
   * An edit at or before an anchored position, re-hashed forward so that the chain verifies clean,
   * fails the verdict whatever manifest is loaded.
   */
  lemma RewriteFails(contentHashOf: string -> string, sha: Digest, ms: seq<Memory>, rows: seq<Row>, edited: seq<Row>, p: nat,
                     log: seq<AnchorRecord>, i: nat, manifest: Option<Manifest>)
    requires Breaks(sha, rows) == [] && |Chained(edited)| == |Chained(rows)|
    requires p < |Chained(rows)| && ContentEdited(Chained(rows)[p], Chained(edited)[p])
    requires i < |log| && Anchors(log[i], rows) && p < log[i].body.chainedRows
    requires NoRowCollision(sha, Hashed(rows), Hashed(RehashForward(sha, edited)))
    ensures Breaks(sha, RehashForward(sha, edited)) == []
    ensures !Passes(contentHashOf, sha, ms, RehashForward(sha, edited), log, manifest)
  {
    RewriteIsReported(sha, rows, edited, p, log, i);
    NoAnchorBreaksIffLogOk(sha, Hashed(RehashForward(sha, edited)), log);
  }
}
