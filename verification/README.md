# A verified model of the governed knowledge base

The repository keeps a team's curated memories behind a governance pipeline and records every decision in a
tamper-evident audit ledger. This project models its hardest parts in Dafny and proves what they promise, for all
inputs, all runs or all reachable states. `dafny verify dfyconfig.toml` checks everything.

## What is modelled

- **The printer under every digest** (`Json`): `JSON.stringify` as section 25.5.2 of ECMA-262 and section 7 of RFC
  8259 fix it, with a reader that undoes it. Injectivity of all hashed bodies rests on this one round trip.
- **The audit chain** (`AuditChain`, `AuditVerify`, `AuditVerdict`, `AuditRepository`): row bodies of both versions,
  the append rule, the linear walk with its fork and tamper classes, exactly which row lists it calls clean, and the
  verdict on each row.
- **Anchors** (`AuditAnchor`, `AnchorVerdict`, `AnchorCommitment`, `AnchorRuns`, `AnchorFile`): the append-only log,
  what a head commits to, which rewrites only an anchor can see, soundness over every run, the JSONL file. `HashLinks`
  is the one argument behind chain, anchor log and dataset revisions: equal digests fix equal prefixes.
- **Merges** (`SignedMergeAnchor`, `AuditVerifyMerge`, `MergeVerdict`, `MergeLock`, `MergeOutcome`, `LockTakeover`):
  the signed log, the second walker as a refinement of the first, the merge verdict, and the lock-file and
  Lamport-clock protocol: creating the lock, stat, age check, unlink, each read, the append and the release are
  separate steps; so are crashes and takeovers.
- **The amnesty** (`ExceptionManifest`, `ManifestVerdict`, `BreakClassifier`, `ProvenanceIntegrity`): the pinned
  manifest, the three-way classification, and the verdict composed of all of the above.
- **Protocols around the derived index** (`GitExporter`, `ExportRuns`, `ExportPlacement`, `CycleRuns`,
  `FreshnessWatermark`, `EdgeDaemon`): the incremental export, whole daemon cycles over the exporter's own steps, the
  freshness mark, the daemon's lifecycle.
- **Algorithms** (`RedactionScrub`, `PolicyPipeline`, `Curator`, `CurationOutcome`, `CaptureQuota`, `CanonicalJson`,
  `FrozenReview`, `UuidNames`). `Sorting` is the stable sort, with strings compared by UTF-16 code units.

Code that updates variables in loops or fields is a method or a class here, proved against a function of its inputs or
of its old state; the theorems are about those functions. What an operation answers is also stated without them (the
modules named `Verdict`, `Outcome`, `Placement`, and the lemmas named `SpelledOut`): in terms of its inputs alone.
Protocols are state machines: one step per moment at which another process can intervene.

SHA-256, Ed25519, the memory formatter and the rule evaluators are arbitrary functions passed as parameters. Nothing
is assumed about the digest; where a result needs it, "no collision among the bodies of these two chains" is a
precondition, and "a signature made with a key checks under its public half" likewise.

## Where the code does less than its documentation says

Each of these is stated as a theorem with the exact condition, and most with a concrete run.

- **Stealing a live lock** (`MergeLock`). The comment on the lock says the 60 s bound on the locked section keeps a live
  holder from being mistaken for a crashed one. The waiter reads the lock's mtime and the clock in two steps: paused
  between them, it judges a lock that is long gone and unlinks its successor's. `LockBoundAloneIsNotEnough` is that run;
  `SectionsAreExclusive` holds in every run that steals no live lock, `BoundRulesOutSteals` says that the bound on lock
  files and on that pause ensures it, and `LiveStealIsExactlyTheDanger` that a steal is dangerous exactly when it is one.
- **Two takeovers of one lock** (`LockTakeover`). After a crash two waiters may judge the same abandoned lock; the first
  takes it over, the second unlinks the new one. `DoubleTakeover` is that run, with no long section and no pause;
  `TakeoverIsExclusiveIff` says what the code could compare before the unlink, and `RecoveryIsSafe` that takeovers which
  unlink the very file they judged are safe.
- **False-fresh after a failed export** (`FreshnessWatermark`). The index step marks the tenant fresh when the index
  update went through, whether or not the export before it did (or was enabled). `FailedExportMeasuresFresh` is a run
  that measures fresh over an unexported promotion; `FailedExportMarkIff` and, over whole runs, `MarkIsTruthfulIff` are
  the exact conditions.
- **False-fresh after a failed write** (`CycleRuns`). An export that sets a memory aside still completes, so the cycle
  marks: `FailedWriteMeasuresFresh` is such a cycle, `MarkIsCompleteIff` is the exact condition.
- **Re-touching a documented row** (`BreakClassifier`). The classifier's documentation says an edit to a documented row
  makes it a tamper signature again. The stored tuple does not cover the content: `ContentEditsAreExcusedIff` says
  exactly when an edit stays excused, and `RetouchedRowStaysDocumented` is such an edit.
- **A second stop call** (`EdgeDaemon`). The daemon keeps one resolver; a second `stop` during a cycle replaces it, and
  the first call never returns (`SecondStopStrandsTheFirst`, `TwoStopsStrandTheFirst` for a run). A waiting call is woken
  exactly when no other stop came in between (`WokenIffNoLaterStop`).
- **Overlapping anchor appends** (`AnchorRuns`). `appendAnchor` takes no lock, and does not look again at the log before
  it writes. Over every run, without collisions, the log verifies exactly when no call appended to a log that had grown
  since it read it (`VerifiesIffNoStaleAppend`); of two calls that read one log, exactly when the no-op guard stopped one
  (`RaceIsHarmlessIff`). `OverlappingAppendsBreakTheLog` is the race on an empty log.
- **A given-up memory** (`ExportRuns`). A version whose write failed is set aside and the cursor moves on: later exports
  do not retry it until the memory is updated (`GivenUpStaysOut`; `GivingUpHappens` is such a run).
- **A file under another directory** (`ExportPlacement`). Archiving removes the copy in the directory the memory's present
  source and category name; one written under another category before stays, until a reconcile run
  (`ArchivedIsNowhereActiveIff`, `RecategorizedCopyStays`).
- **An untagged name** (`UuidNames`). Memory, audit, policy and link names carry a tag, candidate names do not: a
  candidate of a workspace called `memory` shares its name with a memory (`NamesTellApart` is the exact statement).

## Model

| member | source | states |
|---|---|---|
| Json.ParsePrint | packages/store/src/audit-chain.ts:88-134 | reading what the printer wrote gives the value back, for every value and every string with quotes, backslashes and control characters |
| Json.PrintInjective | packages/store/src/audit-chain.ts:88-134 | different values have different texts |
| Json.PlainTextPrintsAsItself | packages/store/src/audit-chain.ts:88-134 | text without quotes, backslashes and control characters is printed as it is, between quotes |
| Json.EscapesAreThese | packages/store/src/audit-chain.ts:88-134 | the escapes of the other characters, one by one |
| Json.NoLeadingZeros | packages/store/src/audit-chain.ts:88-134 | numbers are decimal digits without leading zeros |
| AuditChain.CanonicalRowJsonInjective | packages/store/src/audit-chain.ts:88-134 | two row bodies are equal exactly when version and all covered fields are; no v1 body is a v2 body |
| AuditChain.RowBodyInjective | packages/store/src/audit-verify.ts:30-35 | the same under the stored version, null and unknown versions read as 1 |
| AuditChain.RowBodySpelledOut | packages/store/src/audit-chain.ts:88-134 | the hashed text of a row, key by key, of version 2 exactly where the stored version is 2 |
| AuditVerify.VerifyAuditChain | packages/store/src/audit-verify.ts:94-197 | the loop computes the report: totals, and each break with its index, hashes and reason |
| AuditVerdict.ReportIsTheVerdict | packages/store/src/audit-verify.ts:105-189 | each row gets exactly the break its columns, the nearest hashed row before it and the rows it may hang from call for; only rows with both hash columns null are skipped |
| AuditVerdict.NulledHashIsReported | packages/store/src/audit-verify.ts:121-188 | a row whose stored hash was set to null under a link is reported |
| AuditVerdict.ExpectedLinkShown | packages/store/src/audit-verify.ts:144-188 | the expected link of a break is the nearest hashed row's stored hash |
| AuditVerdict.TotalsAreCounts | packages/store/src/audit-verify.ts:105-197 | unverified rows are those with both columns null, none of them has a break, and the totals add up |
| AuditVerify.OnlyForksIffTree | packages/store/src/audit-verify.ts:144-188 | no break but forks exactly on rooted hash trees in write order |
| AuditVerify.NoBreaksIffPath | packages/store/src/audit-verify.ts:144-188 | no break at all exactly on hash paths |
| AuditVerify.EditsAreLocalized | packages/store/src/audit-verify.ts:144-188 | editing hashed content of a clean chain breaks exactly the edited rows, each as an entry-hash mismatch |
| AuditVerify.RehashForwardVerifiesClean | packages/store/src/audit-verify.ts:94-197 | any content re-hashed forward verifies clean: the gap anchors exist for |
| AuditVerify.RehashForwardOfClean | packages/store/src/audit-verify.ts:94-197 | re-hashing a clean chain forward changes nothing |
| AuditRepository.AuditRepository.Insert | packages/store/src/repositories/audit-repository.ts:374-386 | appends one version-2 row with the event's columns, linked to the newest stored hash; a clean store stays clean |
| AuditRepository.LastHashIsNewest | packages/store/src/repositories/audit-repository.ts:374-386 | the link of a new row is the newest stored hash, null when there is none |
| AuditRepository.MaxSeqIsLeastBound | packages/store/src/repositories/audit-repository.ts:374-386 | the write number of a new row is one above the largest stored one |
| AuditRepository.InsertKeepsClean | packages/store/src/repositories/audit-repository.ts:374-386 | the append rule keeps the chain clean and extends it by exactly the new row |
| AuditAnchor.AnchorBodyJsonInjective | packages/store/src/audit-anchor.ts:55-69 | anchor bodies have equal texts exactly when they are equal |
| AuditAnchor.AnchorLog.AppendAnchor | packages/store/src/audit-anchor.ts:103-142 | appends a linked record of the current snapshot, or returns the last one when it already witnesses it |
| AuditAnchor.AppendTwiceIsOnce | packages/store/src/audit-anchor.ts:103-142 | a second append with no insert in between leaves the log as it was |
| AnchorVerdict.AppendSpelledOut | packages/store/src/audit-anchor.ts:103-142 | an append adds nothing exactly when the last record has the same head and count, and otherwise this record, its hash over this text |
| AnchorVerdict.SnapshotCountsStoredHashes | packages/store/src/audit-anchor.ts:103-142 | an anchor counts the rows with a stored hash and keeps the newest of those hashes |
| AuditAnchor.VerifyCapturedAnchors | packages/store/src/audit-anchor.ts:190-254 | the loop computes every break of the anchor log against the live chain |
| AuditAnchor.VerifyAnchors | packages/store/src/audit-anchor.ts:172-188 | the walk and the log check together, and their joint verdict |
| AnchorVerdict.AnchorReportIsTheVerdict | packages/store/src/audit-anchor.ts:198-247 | each record gets exactly the breaks that hold of it: truncation when fewer rows carry a hash than it counted, rewriting when the row that was its newest carries another, hash and link likewise |
| AnchorVerdict.AnchorBreaksInOrder | packages/store/src/audit-anchor.ts:198-247 | breaks come in log order, within a record in the order hash, link, history |
| AuditAnchor.NoAnchorBreaksIffLogOk | packages/store/src/audit-anchor.ts:198-247 | no anchor break exactly when every record hashes, names its predecessor and agrees with the live chain |
| HashLinks.DigestFixesPrefix | packages/store/src/audit-verify.ts:105-189 | in linked lists without collisions, equal digests at two positions mean equal positions and equal prefixes |
| AnchorCommitment.PathDigestFixesPrefix | packages/store/src/audit-anchor.ts:190-254 | a stored hash of a hash path fixes the row and all rows before it |
| AnchorCommitment.HeadFixesChain | packages/store/src/audit-anchor.ts:190-254 | two clean chains with one head have one length and one history |
| AnchorCommitment.AnchorPinsHistory | packages/store/src/audit-anchor.ts:190-254 | rows that verify against a log holding an anchor of n rows have the anchored chain's first n chained rows, in every hashed field |
| AnchorCommitment.RewriteIsReported | packages/store/src/audit-anchor.ts:228-246 | an edit re-hashed forward walks clean, and every anchor at or past the edit reports the rewrite |
| AnchorCommitment.NewestAnchorFixesLog | packages/store/src/audit-anchor.ts:198-226 | two verifying logs with one newest anchor hash are the same log |
| AnchorRuns.AnchoringIsSound | packages/store/src/audit-anchor.ts:103-142 | with one append call at a time, inserts between its reads included, verification passes over every run and anchored counts strictly increase |
| AnchorRuns.RunsOnlyExtend | packages/store/src/audit-anchor.ts:103-142 | no run changes or removes a row or a record |
| AnchorRuns.OneCallerNeverOverlaps | packages/store/src/audit-anchor.ts:103-142 | a single caller is one at a time, whatever it abandons or retries |
| AnchorRuns.VerifiesIffNoStaleAppend | packages/store/src/audit-anchor.ts:103-142 | over every run of any number of interleaved calls, without collisions, the log verifies exactly when no call appended to a log that had grown since it read it |
| AnchorRuns.NoStaleAppendVerifies | packages/store/src/audit-anchor.ts:103-142 | without a stale append verification passes whatever the digest |
| AnchorRuns.RaceIsHarmlessIff | packages/store/src/audit-anchor.ts:111-141 | when two calls that read one log have both written, the log verifies exactly when the no-op guard stopped one of them |
| AnchorRuns.OverlappingAppendsBreakTheLog | packages/store/src/audit-anchor.ts:111-141 | a run: two calls read an empty log and write, and verification fails |
| AnchorRuns.UndisturbedCallAppends | packages/store/src/audit-anchor.ts:103-142 | a call whose two reads and write nothing comes between is the log's own append |
| AnchorFile.FileRoundTrip | packages/store/src/audit-anchor.ts:76-87 | the line-per-record file reads back as the log that was written |
| AnchorFile.LineSpelledOut | packages/store/src/audit-anchor.ts:126-142 | the text one append adds to the file, key by key |
| AnchorFile.BlankLinesSkipped | packages/store/src/audit-anchor.ts:76-87 | lines of white space are passed over |
| SignedMergeAnchor.SameSetIsMultisetEquality | packages/store/src/signed-merge-anchor.ts:435-441 | the set comparison counts repetitions and ignores order |
| SignedMergeAnchor.MergeBodyJsonCanonical | packages/store/src/signed-merge-anchor.ts:154-173 | the signable text is the same for both orders of the parents and otherwise injective |
| SignedMergeAnchor.MergeAnchorLog.AppendSignedMergeAnchor | packages/store/src/signed-merge-anchor.ts:270-300 | appends exactly one signed record of the head, the given clock and the log's tip |
| MergeVerdict.NewMergeRecordSpelledOut | packages/store/src/signed-merge-anchor.ts:270-300 | the record field by field, hash and signature over the spelled-out text with the parents in ascending order |
| SignedMergeAnchor.VerifySignedMergeAnchors | packages/store/src/signed-merge-anchor.ts:342-432 | the loop computes every break of the signed log, and the parent check of the last record |
| MergeVerdict.MergeReportIsTheVerdict | packages/store/src/signed-merge-anchor.ts:342-432 | each record gets exactly the breaks that hold of it, the last one also the parent check, as multisets |
| SignedMergeAnchor.NoMergeBreaksIffLogOk | packages/store/src/signed-merge-anchor.ts:342-432 | no break exactly when every record hashes, checks, links and agrees with the chain |
| AuditVerifyMerge.CanonicalMergeOrderIsCanonical | packages/store/src/audit-verify-merge.ts:126-128 | the id order is sorted, a permutation, and independent of the incoming order when ids are unique |
| AuditVerifyMerge.WalkChain | packages/store/src/audit-verify-merge.ts:140-212 | the second walker gives the first one's report with each fork named a link mismatch |
| MergeVerdict.RewalkIsTheVerdict | packages/store/src/audit-verify-merge.ts:140-212 | each row gets exactly the linear walk's verdict, a fork called a link mismatch |
| AuditVerifyMerge.ChainHeadOf | packages/store/src/audit-verify-merge.ts:223-229 | the backward scan finds the head an anchor would record |
| MergeVerdict.HeadIsNewestHash | packages/store/src/audit-verify-merge.ts:223-229 | that head is the newest stored hash, or the empty text |
| AuditVerifyMerge.VerifyDagAnchor | packages/store/src/audit-verify-merge.ts:242-287 | each failed guard is one break, in order; parents compare as multisets |
| MergeVerdict.DagReportIsTheVerdict | packages/store/src/audit-verify-merge.ts:242-287 | which breaks the anchor check reports and at which index, condition by condition |
| AuditVerifyMerge.DagOkIffAttests | packages/store/src/audit-verify-merge.ts:242-287 | ok exactly when the anchor is there, signed, and names the two heads in some order and the merged head |
| AuditVerifyMerge.VerifyMergeAuditChain | packages/store/src/audit-verify-merge.ts:320-348 | the four sub-checks and their conjunction |
| AuditVerifyMerge.MergeOkIff | packages/store/src/audit-verify-merge.ts:320-348 | a merge passes exactly when three chains are hash paths, the merged one in id order, and the last anchor attests them |
| AuditVerifyMerge.MergedOrderIsIrrelevant | packages/store/src/audit-verify-merge.ts:320-348 | permuting merged rows with unique ids changes nothing in the result |
| AuditVerifyMerge.ClonesAreInterchangeable | packages/store/src/audit-verify-merge.ts:320-348 | swapping the clones swaps their reports and changes nothing else |
| AuditVerifyMerge.OneAttestationOneMerge | packages/store/src/audit-verify-merge.ts:320-348 | two merges that pass against one last anchor have one merged history and the same two clone histories, empty ones included |
| AuditVerifyMerge.SignedMergePasses | packages/store/src/audit-verify-merge.ts:320-348 | clean clones and a hash path in id order pass once signed over their heads, whatever the anchor log held |
| AuditVerifyMerge.OneRowMergePasses | packages/store/src/audit-verify-merge.ts:320-348 | such a merge of one row and an empty clone, comparable with itself |
| MergeLock.SectionsAreExclusive | apps/curator/src/cli.ts:1965-1985 | in every interleaving without a live steal: one process in the section, clocks exactly 1..k, a log that verifies, and a report without breaks for every holder that compares |
| MergeOutcome.HonestHoldersSucceed | apps/curator/src/cli.ts:1965-1993 | in every interleaving without a live steal, a process in which nothing throws never ends as failed |
| MergeOutcome.ComparingDecides | apps/curator/src/cli.ts:1979-1993 | a process releases with success exactly when the log it read back is good and its last record has the process's parents |
| MergeOutcome.AloneItFinishes | apps/curator/src/cli.ts:1965-1985 | a process that finds no lock and is left alone over a good log ends as verified, with one record more and the lock released |
| MergeOutcome.ThrowReleasesTheLock | apps/curator/src/cli.ts:1965-1985 | a throw in the section still releases the lock, and the process ends as failed |
| MergeOutcome.WaiterGivesUpAtItsDeadline | apps/curator/src/cli.ts:1866-1894 | a waiter over a lock no older than 60 s gives up exactly when its deadline has come |
| MergeOutcome.WaiterTakesOverAnOldLock | apps/curator/src/cli.ts:1866-1894 | a waiter over an older lock, left alone, takes it over |
| MergeLock.BoundRulesOutSteals | apps/curator/src/cli.ts:1853-1894 | the 60 s bound, on lock files and on mtimes being judged, rules live steals out |
| MergeLock.LiveStealIsExactlyTheDanger | apps/curator/src/cli.ts:1870-1882 | a stealer's next moves give two holders exactly when the stolen lock was a live one's |
| MergeLock.LockBoundAloneIsNotEnough | apps/curator/src/cli.ts:1870-1882 | a run with no lock file older than 60 s and two processes in the section |
| LockTakeover.RecoveryIsSafe | apps/curator/src/cli.ts:1870-1882 | with crashed holders and takeovers: if live sections are short and whoever steals unlinks the file it judged, sections are exclusive and the log is good |
| LockTakeover.TakeoverIsExclusiveIff | apps/curator/src/cli.ts:1870-1882 | from every state reached without a live steal while live sections are short, a takeover leaves one process in the section exactly when the file is gone, is the judged one, or its creator has left |
| LockTakeover.TakeoverOfADeadLock | apps/curator/src/cli.ts:1870-1882 | a takeover of a dead lock keeps the invariant and lets the taker in |
| LockTakeover.DoubleTakeover | apps/curator/src/cli.ts:1870-1882 | a run after a crash, with no long section, in which two waiters take the same lock over |
| ExceptionManifest.BodyJsonFixesManifest | packages/store/src/exception-manifest.ts:148-185 | the hashed text fixes the manifest up to the order of its entries |
| ExceptionManifest.BodyJsonIgnoresEntryOrder | packages/store/src/exception-manifest.ts:148-185 | with distinct (seq, id) pairs the text ignores exactly that order |
| ExceptionManifest.ReadBackIff | packages/store/src/exception-manifest.ts:218-269 | which gate, if any, refuses a written manifest, and that an accepted one is read back unchanged |
| ManifestVerdict.AcceptedIff | packages/store/src/exception-manifest.ts:218-269 | a file is read as a manifest exactly when it holds that manifest, with an honest count and a hash that recomputes |
| ManifestVerdict.RefusedBy | packages/store/src/exception-manifest.ts:218-269 | which gate refuses the others |
| ManifestVerdict.ManifestBodySpelledOut | packages/store/src/exception-manifest.ts:148-185 | the hashed text key by key, entries ascending by write number and id |
| ExceptionManifest.AcceptedHashFixesManifest | packages/store/src/exception-manifest.ts:218-269 | two accepted manifests with one hash pin the same rows |
| BreakClassifier.ClassifyChainBreaks | packages/store/src/exception-manifest.ts:328-388 | the two loops compute the classification |
| BreakClassifier.BucketsPartition | packages/store/src/exception-manifest.ts:341-380 | the three buckets together hold every break once |
| BreakClassifier.BucketsSpelledOut | packages/store/src/exception-manifest.ts:328-388 | which break is in which bucket, read off the columns of the manifest and of the store; verified means only documented ones |
| BreakClassifier.BucketsKeepOrder | packages/store/src/exception-manifest.ts:341-380 | each bucket is a subsequence of the breaks |
| BreakClassifier.TamperUnlessExcused | packages/store/src/exception-manifest.ts:341-380 | a non-fork break is a tamper signature exactly when no entry pins the row's present tuple and reason |
| BreakClassifier.DocumentedNeedsAnExcuse | packages/store/src/exception-manifest.ts:328-388 | a duplicate id in a manifest cannot broaden the amnesty |
| BreakClassifier.GenerateManifest | apps/curator/src/cli.ts:1270-1309 | the generator pins every non-fork break by its row's stored tuple |
| BreakClassifier.PinsSpelledOut | apps/curator/src/cli.ts:1270-1309 | pinned are the columns and the reason of each row that breaks, forks apart, and nothing else |
| BreakClassifier.GeneratedManifestRoundTrip | apps/curator/src/cli.ts:1270-1309 | a manifest generated from any store is accepted and leaves that store without tamper signatures |
| BreakClassifier.ContentEditsAreExcusedIff | packages/store/src/exception-manifest.ts:341-380 | with stored columns left alone, a break stays excused exactly when the row was already broken for that reason |
| BreakClassifier.RetouchedRowStaysDocumented | packages/store/src/exception-manifest.ts:308-319 | a documented row edited again that is not a tamper signature |
| ProvenanceIntegrity.CountAnchorBreaks | packages/eval-surface/src/provenance-integrity.ts:186-210 | the counters add up to the breaks, each counting its own class |
| ProvenanceIntegrity.EvaluateProvenanceIntegrity | packages/eval-surface/src/provenance-integrity.ts:226-331 | passes exactly when memories hash, sources are known, no tamper signature is left and the anchor log agrees; what each number counts; an error exactly for a manifest that is there and refused |
| ProvenanceIntegrity.PassesWithoutManifestIff | packages/eval-surface/src/provenance-integrity.ts:226-331 | without a manifest, passing means a rooted hash tree under an agreeing log |
| ProvenanceIntegrity.HashTreePasses | packages/eval-surface/src/provenance-integrity.ts:226-331 | benign forks never fail the verdict, whatever manifest is loaded |
| ProvenanceIntegrity.HonestRunsPass | packages/eval-surface/src/provenance-integrity.ts:226-331 | every run of inserts and anchorings without a stale append passes |
| ProvenanceIntegrity.RewriteFails | packages/eval-surface/src/provenance-integrity.ts:226-331 | an anchored history edited and re-hashed forward fails under every manifest |
| GitExporter.DetectChanges | apps/git-exporter/src/diff/change-detector.ts:26-116 | the loop sorts the eligible memories into writes, archivals and quarantine |
| GitExporter.ChangesMember | apps/git-exporter/src/diff/change-detector.ts:26-116 | the changeset is exactly the eligible memories that have a place |
| GitExporter.Exporter.WriteOne | apps/git-exporter/src/exporter.ts:58-86 | the content-compared write of one memory |
| GitExporter.Exporter.ArchiveOne | apps/git-exporter/src/exporter.ts:88-114 | the content-compared move of one memory to the archive |
| GitExporter.Exporter.RunExport | apps/git-exporter/src/exporter.ts:38-135 | the tree after all changes, the start-time cursor, what was written, skipped and quarantined, every item accounted for |
| ExportPlacement.TreeAfterExport | apps/git-exporter/src/diff/change-detector.ts:26-116 | after an undisturbed export, path by path: Active memories in bulk, decisions, curated or guides by source and category, others in archive and gone from there, every other file untouched |
| ExportPlacement.SkippedAre | apps/git-exporter/src/exporter.ts:58-92 | reported as skipped are exactly the due restricted memories |
| ExportPlacement.QuarantinedAre | apps/git-exporter/src/exporter.ts:79-113 | reported as quarantined are those without a directory and those the formatter refuses |
| ExportPlacement.WrittenAre | apps/git-exporter/src/exporter.ts:58-114 | reported as written are the exportable ones whose version the tree did not hold |
| GitExporter.NothingWritten | apps/git-exporter/src/exporter.ts:68-75 | an export writes nothing exactly when everything exportable is in place, and then changes nothing |
| ExportRuns.NoLostUpdate | apps/git-exporter/src/exporter.ts:38-135 | in every reachable state, crashes and torn files included, what is neither in the tree nor exempt nor given up is at or after the cursor |
| ExportRuns.ExportBringsUpToDate | apps/git-exporter/src/exporter.ts:38-135 | from any reachable state one undisturbed export puts every exportable memory's current version at its path |
| ExportPlacement.ExportPlacesMemory | apps/git-exporter/src/formatter/directory-mapper.ts:34-80 | from any reachable state, with the directories named: where one undisturbed export leaves a memory |
| ExportPlacement.ArchivedIsNowhereActiveIff | apps/git-exporter/src/diff/change-detector.ts:70-92 | an archived memory is at no active path exactly when no other active directory held a copy of it |
| ExportPlacement.RecategorizedCopyStays | apps/git-exporter/src/diff/change-detector.ts:70-92 | a memory recategorized and then deprecated between two exports, whose first file stays |
| ExportRuns.RepeatWritesNothing | apps/git-exporter/src/exporter.ts:27-28 | and a second one writes nothing |
| ExportRuns.GivenUpStaysOut | apps/git-exporter/src/exporter.ts:79-85 | a version whose write failed is not retried once the cursor has passed it |
| ExportRuns.GivingUpHappens | apps/git-exporter/src/exporter.ts:79-85 | a run that ends so |
| CycleRuns.MarkedVersionsAreIndexed | apps/edge-daemon/src/cycle.ts:411-421 | over every run of cycles on the exporter's own steps, a version stamped at or before a mark is indexed, exempt or given up, if each mark closed a completed export |
| CycleRuns.FreshGaugeMeansIndexed | apps/edge-daemon/src/cycle.ts:411-421 | so under a fresh gauge every memory that is as it was promoted is in the index, unless exempt or given up |
| CycleRuns.QuietCycleIndexesAll | apps/edge-daemon/src/cycle.ts:323-421 | from any resting state one undisturbed cycle indexes every exportable memory and marks its start |
| CycleRuns.MarkIsCompleteIff | apps/edge-daemon/src/cycle.ts:323-366 | a mark about to be stored is complete exactly when each version an export gave up is indexed after all |
| CycleRuns.FailedWriteMeasuresFresh | apps/edge-daemon/src/cycle.ts:323-366 | a cycle whose only write fails, and a fresh gauge over an empty index |
| FreshnessWatermark.NeverFalseFresh | apps/edge-daemon/src/cycle.ts:411-420 | in every interleaving where marking chains' exports completed, a fresh gauge means every promotion was in an export read that an index update followed, and is indexed unless an export set it aside |
| FreshnessWatermark.MarkCoversWhatItClaims | packages/store/src/schema.ts:432-443 | the same for each promotion at or before the mark |
| FreshnessWatermark.GoodCycleIsFresh | apps/edge-daemon/src/cycle.ts:323-421 | a cycle nothing disturbs writes, reads and indexes every promotion, and the gauge is fresh unless one is from the future |
| FreshnessWatermark.FailedExportMarkIff | apps/edge-daemon/src/cycle.ts:323-366 | after a failed export a mark is truthful exactly when everything up to the watermark was written or indexed before, set aside, or among the files that export still wrote |
| FreshnessWatermark.SetsAreHistory | apps/edge-daemon/src/cycle.ts:323-366 | what is written, set aside and indexed, in terms of the steps of the run |
| FreshnessWatermark.MarkIsTruthfulIff | apps/edge-daemon/src/cycle.ts:323-366 | over whole interleaved runs a mark is truthful exactly when every promotion up to its watermark was written and then indexed, or set aside |
| FreshnessWatermark.FailedExportMeasuresFresh | apps/edge-daemon/src/cycle.ts:323-366 | a run that measures fresh over an unexported promotion |
| FreshnessWatermark.WithRetry | apps/edge-daemon/src/retry.ts:45-64 | succeeds exactly when the first non-transient attempt within the limit is a success |
| FreshnessWatermark.IndexState.IndexUpdateStep | apps/edge-daemon/src/cycle.ts:323-366 | a failed update leaves the mark, a completed one moves it to the watermark, as the machine's own steps do |
| EdgeDaemon.DaemonIsSafe | apps/edge-daemon/src/daemon.ts:95-214 | over every interleaving: states only advance, one cycle at most, none begins after a stop, the lock is held while one runs |
| EdgeDaemon.LockReleasedAtRest | apps/edge-daemon/src/daemon.ts:141-178 | the PID lock is released with no cycle running, and none runs afterwards |
| EdgeDaemon.RunningGoesOn | apps/edge-daemon/src/daemon.ts:180-214 | while running, a cycle is in flight or one timeout is armed that begins the next; otherwise none is |
| EdgeDaemon.StopsAtOnce | apps/edge-daemon/src/daemon.ts:141-178 | without a cycle and a health server a stop call stops the daemon and releases the lock at once |
| EdgeDaemon.StopDuringCycleCompletes | apps/edge-daemon/src/daemon.ts:141-178 | one made during a cycle, with no other after it, does so once the cycle ends |
| EdgeDaemon.WokenStopFinishes | apps/edge-daemon/src/daemon.ts:141-178 | and closes the health server first, after its start has ended |
| EdgeDaemon.WokenIffNoLaterStop | apps/edge-daemon/src/daemon.ts:155-160 | a stop call made during a cycle is woken by its end exactly when no other stop call came in between |
| EdgeDaemon.SecondStopStrandsTheFirst | apps/edge-daemon/src/daemon.ts:155-160 | a replaced stop call never returns |
| EdgeDaemon.TwoStopsStrandTheFirst | apps/edge-daemon/src/daemon.ts:155-160 | a run in which that happens |
| EdgeDaemon.Lifecycle.StartDaemon | apps/edge-daemon/src/daemon.ts:95-133 | starts exactly from idle with a free lock, and arms the timer |
| EdgeDaemon.Lifecycle.BeginCycle | apps/edge-daemon/src/daemon.ts:180-191 | a fired timer begins a cycle only while running |
| EdgeDaemon.Lifecycle.FinishCycle | apps/edge-daemon/src/daemon.ts:202-213 | lowers the flag, wakes the registered stop, re-arms the timer only while running |
| EdgeDaemon.Lifecycle.StopDaemon | apps/edge-daemon/src/daemon.ts:141-160 | stop up to its first await |
| RedactionScrub.ScanFile | packages/store/src/redaction-scrub.ts:124-150 | the chunked scan finds exactly what a naive search finds, for every needle list and every schedule of short reads, within the buffer |
| RedactionScrub.WindowMissesNothing | packages/store/src/redaction-scrub.ts:133-147 | a window that carries over all but one byte of the needle misses no crossing occurrence |
| RedactionScrub.PositiveReadsReachTheEnd | packages/store/src/redaction-scrub.ts:133-145 | reads that always return something scan the whole file |
| RedactionScrub.OverlapFor | packages/store/src/redaction-scrub.ts:125-127 | the overlap is enough for every needle, and no more than the longest one needs |
| RedactionScrub.ScanFilesForFragments | packages/store/src/redaction-scrub.ts:178-199 | existing files scanned, residual indexes ascending, hits with their counts, over what the reads of each file returned |
| RedactionScrub.FullReadsScanEverything | packages/store/src/redaction-scrub.ts:178-199 | which is every file whole, while reads return something |
| RedactionScrub.ReportIsExact | packages/store/src/redaction-scrub.ts:178-199 | an index is reported exactly when that fragment is in some scanned file |
| RedactionScrub.OneFileReport | packages/store/src/redaction-scrub.ts:178-199 | a file is listed as scanned when it exists, and as a hit with the number of fragments that stand in it |
| RedactionScrub.FileReportsConcatenate | packages/store/src/redaction-scrub.ts:178-199 | and the reports of files follow their order |
| PolicyPipeline.Evaluate | packages/policy-engine/src/pipeline.ts:49-132 | the outcome is the policy's declared meaning; the named rule is the leftmost rejecting one of least priority; contradiction flags survive |
| PolicyPipeline.MeaningSpelledOut | packages/policy-engine/src/pipeline.ts:49-132 | rejected exactly when some enabled rule outside the contradiction phase fails and rejects, approved exactly when every enabled rule passes |
| PolicyPipeline.NamedSpelledOut | packages/policy-engine/src/pipeline.ts:64-75 | the rule named is one that can reject, of least priority, the first of equals |
| PolicyPipeline.PhaseOrder | packages/policy-engine/src/pipeline.ts:64-75 | a phase runs by priority, equal ones in the order of the policy |
| PolicyPipeline.RejecterIsLeftmostLeast | packages/policy-engine/src/pipeline.ts:64-75 | first in stable priority order is leftmost of least priority |
| PolicyPipeline.RuleOrderIsIrrelevant | packages/policy-engine/src/pipeline.ts:49-132 | the order of the rules does not affect the outcome |
| PolicyPipeline.PrioritiesAreIrrelevant | packages/policy-engine/src/pipeline.ts:49-132 | nor do the priorities |
| Sorting.SortIgnoresOrder | packages/store/src/audit-verify-merge.ts:126-128 | without ties a sort's result does not depend on the incoming order |
| Sorting.FirstOfSort | packages/policy-engine/src/pipeline.ts:64-75 | a stable sort puts the leftmost least element first |
| Sorting.SortIsStable | packages/policy-engine/src/pipeline.ts:64-75 | elements that tie keep the order they came in |
| Sorting.StringLeIsCodeUnitOrder | packages/store/src/audit-verify-merge.ts:126-128 | strings are ordered by their UTF-16 code units, dictionary-wise |
| Curator.CuratorRun.ProcessSingle | apps/curator/src/curator.ts:117-291 | each outcome exactly when its gates say so, in their order; state and spending |
| CurationOutcome.ResultSpelledOut | apps/curator/src/curator.ts:117-291 | the outcome is that of the first gate that applies; hold, retired subjects and report field by field |
| CurationOutcome.StateSpelledOut | apps/curator/src/curator.ts:117-291 | what each candidate leaves of the instance |
| Curator.CuratorRun.HoldCandidate | apps/curator/src/curator.ts:343-398 | a full or unholdable queue fails closed, and the cap latches |
| Curator.CuratorRun.PromoteCandidate | apps/curator/src/curator.ts:458-523 | what is retired under blocks, preview and budget; a promotion that throws spends nothing |
| CurationOutcome.PromotionRetiresAllOrNothing | apps/curator/src/curator.ts:458-523 | outside dry run and preview a promotion retires all subjects of an unblocked plan exactly when that keeps the run within its budget, else none |
| CurationOutcome.PreviewsRetireNothing | apps/curator/src/curator.ts:458-523 | in report mode and in a dry run nothing is retired or spent over the life of an instance |
| CurationOutcome.SingleRetiresNothing | apps/curator/src/curator.ts:458-523 | nor by a candidate whose plan is blocked |
| Curator.CuratorRun.ProcessBatch | apps/curator/src/curator.ts:407-456 | one faithful result per candidate, five counters that add up, blocked holds among the flagged; a throw ends the batch |
| CurationOutcome.BatchPromotionRetires | apps/curator/src/curator.ts:407-523 | within a batch, what each promotion retires given what was retired before it |
| CurationOutcome.BatchRetiresWhatItReports | apps/curator/src/curator.ts:407-523 | a batch retires and spends exactly what its results report |
| CurationOutcome.DuplicateIff | apps/curator/src/curator.ts:407-456 | a duplicate is known to the tenant, redacted, or promoted earlier in the batch |
| CurationOutcome.BatchThrowsIff | apps/curator/src/curator.ts:407-456 | a batch is cut short exactly by a reached candidate whose promotion throws |
| Curator.PromotionsAreDistinct | apps/curator/src/curator.ts:407-456 | no two promotions of a batch share a content hash, and none was the tenant's before |
| Curator.BudgetHolds | apps/curator/src/curator.ts:466-523 | over any sequence of batches on one instance, retirements never exceed the run budget |
| Curator.LatchHolds | apps/curator/src/curator.ts:349-368 | once the hold cap latched, the instance holds nothing more, in batches, single candidates and batches a throw cuts short |
| Curator.NothingHeldOnceLatched | apps/curator/src/curator.ts:349-368 | no result of a later batch is a hold |
| Curator.NoSingleHeldOnceLatched | apps/curator/src/curator.ts:349-368 | nor that of a single candidate |
| Curator.NothingHeldBehindACap | apps/curator/src/curator.ts:349-368 | nor does the rest of the batch that found it |
| CaptureQuota.Quota.OnRequest | apps/api/src/middleware/capture-quota.ts:41-68 | the entry a request leaves; a refusal only after a full quota of acceptances, and never more than two quotas within a window length |
| CaptureQuota.Quota.Cleanup | apps/api/src/middleware/capture-quota.ts:29-34 | the sweep removes exactly the expired entries |
| CaptureQuota.OnlyOwnRequestsDecide | apps/api/src/middleware/capture-quota.ts:27-68 | neither sweeps nor other actors change a decision |
| CaptureQuota.QuotaHolds | apps/api/src/middleware/capture-quota.ts:27-68 | at most (k + 1) * maxCaptures accepted captures in any closed interval of k windows |
| CaptureQuota.RefusalsAreEarned | apps/api/src/middleware/capture-quota.ts:41-68 | over the answers given: a refusal means the actor was answered with acceptance at least maxCaptures times in the window length before it |
| CaptureQuota.AnswersWithinQuota | apps/api/src/middleware/capture-quota.ts:27-68 | the upper bound over the same answers |
| CaptureQuota.ZeroQuotaLetsOneThrough | apps/api/src/middleware/capture-quota.ts:52-55 | a quota of zero still accepts the first capture of a window |
| CanonicalJson.SortThenDeepen | ci/emit-evidence/emit-evidence.ts:138-147 | sorting entries before or after their values is the same |
| CanonicalJson.StableStringifyIsCanonical | ci/emit-evidence/emit-evidence.ts:138-152 | equal strings exactly for trees equal up to key order at every depth |
| CanonicalJson.CanonicalKeepsTheTree | ci/emit-evidence/emit-evidence.ts:138-147 | the canonical value is the same tree, its keys ascending at every depth |
| CanonicalJson.ReparseAndRestringify | ci/emit-evidence/emit-evidence.ts:149-152 | canonical text parses and stringifies to itself |
| FrozenReview.CheckAppend | packages/eval-surface/src/review-agent-frozen.ts:134-156 | accepts exactly a next revision that keeps every earlier case in place and adds at least one |
| FrozenReview.AppendSpelledOut | packages/eval-surface/src/review-agent-frozen.ts:126-156 | the same field by field and case by case |
| FrozenReview.ParseManifest | packages/eval-surface/src/review-agent-frozen.ts:126-133 | accepts exactly a manifest under its trusted hash with distinct case ids |
| FrozenReview.RevisionsExtendAncestors | packages/eval-surface/src/review-agent-frozen.ts:134-156 | every accepted revision extends all its ancestors |
| FrozenReview.NewestHashFixesAllRevisions | packages/eval-surface/src/review-agent-frozen.ts:126-156 | the newest trusted hash fixes the whole revision chain |
| UuidNames.JoinInjective | packages/common/src/uuid-v5.ts:37-43 | joined names are read back in one way when no field holds the separator |
| UuidNames.NamesSpelledOut | packages/common/src/uuid-v5.ts:102-211 | the name of each kind of thing, with its tag and separators |
| UuidNames.NamesTellApart | packages/common/src/uuid-v5.ts:102-211 | names coincide exactly for equal things, or a candidate of workspace `memory` and the memory it reads like |
| UuidNames.NulMakesNamesCollide | packages/common/src/uuid-v5.ts:37-43 | with the separator inside a field different links share a name |
| UuidNames.PatchVersion5 | packages/common/src/uuid-v5.ts:76-87 | version and variant bits set, every other bit kept |

## Left out

- SHA-256, SHA-1 and Ed25519 internals: arbitrary functions here, as said above.
- SQLite, the filesystem, HTTP, timers and key handling: sequences, maps, lock-file values and parameters stand for them.
- Strings are sequences of Unicode scalar values: lone surrogates, which `JSON.stringify` escapes, do not occur.
- Numbers in JSON are integers; white space between JSON tokens (the manifest file is indented) is not modelled.
- `JSON.parse` orders integer-like keys first and objects cannot have them here: the canonical-JSON results are for other keys.
- The human-readable `detail` text of breaks, report formatting and the rounding of scores.
- ExceptionManifest.ReadBackIff: is about the parsed file; an unreadable or non-JSON file is one case of it, so text layout is not modelled.
- AnchorRuns.AnchoringIsSound: one append call at a time; what overlapping calls do is VerifiesIffNoStaleAppend.
- ExportRuns.NoLostUpdate: timestamps do not go back, as the exporter's documentation requires, and one export runs at a time.
- FreshnessWatermark.NeverFalseFresh: promotions behind a watermark sample carry a strictly later stamp; which files a completed export set aside is the environment's choice here and the exporter's own steps in CycleRuns.
- CycleRuns.MarkedVersionsAreIndexed: one daemon; a second exporter working on the same tree is not modelled.
- Reconcile mode of the exporter (stale and orphaned files), incremental mode only.
- `runOnce` in the daemon, which bypasses the state it keeps; process signals; which stop call finds the health server already closed (any of them may fail there).
- Which memories supersede which, what the policy rules look at, hold placement and the redaction lookup: their answers are inputs to the curator.
- Regex-based disclosure filters, freshness ranking and retrieval metrics: library and floating-point behaviour.
- Review-judgment scores and the repository-context cache: their properties follow from reading one function body.
