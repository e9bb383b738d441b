/** The merge verifier: rows re-walked in id order, and the signed DAG anchor (packages/store/src/audit-verify-merge.ts). */
module AuditVerifyMerge {
  import opened Prelude
  import opened HashLinks
  import opened AuditChain
  import opened AuditVerify
  import opened AuditAnchor
  import opened AnchorCommitment
  import opened SignedMergeAnchor
  import opened Sorting

  // ---------- the canonical order ----------

  predicate IdLe(a: Row, b: Row) {
    StringLe(a.id, b.id)
  }

  /** Row ids name rows. */
  ghost predicate UniqueRowIds(rows: seq<Row>) {
    forall a, b :: a in rows && b in rows && a.id == b.id ==> a == b
  }

  function CanonicalMergeOrder(rows: seq<Row>): seq<Row> {
    Sort(rows, IdLe)
  }

  lemma IdOrder()
    ensures TotalPreorder(IdLe)
    ensures forall rows :: UniqueRowIds(rows) ==> NoTies(rows, IdLe)
  {
    StringOrder();
  }

  /** The order the verifier re-derives holds the same rows, sorted, whatever order they were handed over in. */
  lemma CanonicalMergeOrderIsCanonical(rows: seq<Row>, permuted: seq<Row>)
    requires UniqueRowIds(rows) && multiset(rows) == multiset(permuted)
    ensures CanonicalMergeOrder(rows) == CanonicalMergeOrder(permuted)
    ensures Sorted(CanonicalMergeOrder(rows), IdLe) && multiset(CanonicalMergeOrder(rows)) == multiset(rows)
    ensures forall i: nat, j: nat :: i < j < |CanonicalMergeOrder(rows)| ==>
              LexLe(Units(CanonicalMergeOrder(rows)[i].id), Units(CanonicalMergeOrder(rows)[j].id))
  {
    IdOrder();
    SortIgnoresOrder(rows, permuted, IdLe);
    SortSorted(rows, IdLe);
    SortMultiset(rows, IdLe);
    var ordered := CanonicalMergeOrder(rows);
    forall i: nat, j: nat | i < j < |ordered|
      ensures LexLe(Units(ordered[i].id), Units(ordered[j].id))
    {
      assert IdLe(ordered[i], ordered[j]);
      StringLeIsCodeUnitOrder(ordered[i].id, ordered[j].id);
    }
  }

  // ---------- the second walker ----------

  /** This walker has no fork class: a fork is a link mismatch. */
  function Relabel(r: Reason): Reason {
    if r == ChainFork then PrevLinkMismatch else r
  }

  function Relabelled(breaks: seq<Break>): (r: seq<Break>)
    ensures |r| == |breaks|
  {
    if |breaks| == 0 then []
    else Relabelled(Init(breaks)) + [Last(breaks).(reason := Relabel(Last(breaks).reason))]
  }

  function RelabelledReport(r: VerifyResult): VerifyResult {
    r.(breaks := Relabelled(r.breaks))
  }

  /** What this walk's variables mean, in terms of the linear walk over the same rows. */
  ghost predicate Rewalked(sha: Digest, before: seq<Row>, breaks: seq<Break>, unverified: nat, clean: nat, expectedPrev: Option<string>) {
    breaks == Relabelled(Breaks(sha, before)) &&
    unverified == Unverified(before) &&
    clean + unverified + |breaks| == |before| &&
    expectedPrev == Tip(Chained(before))
  }

  lemma RewalkPreMigration(sha: Digest, before: seq<Row>, row: Row, breaks: seq<Break>, unverified: nat, clean: nat,
                           expectedPrev: Option<string>)
    requires Rewalked(sha, before, breaks, unverified, clean, expectedPrev) && PreMigration(row)
    ensures Rewalked(sha, before + [row], breaks, unverified + 1, clean, expectedPrev)
  {
    assert Init(before + [row]) == before;
  }

  lemma RelabelledSnoc(breaks: seq<Break>, b: Break)
    ensures Relabelled(breaks + [b]) == Relabelled(breaks) + [b.(reason := Relabel(b.reason))]
  {
    assert Init(breaks + [b]) == breaks;
  }

  lemma RewalkClean(sha: Digest, before: seq<Row>, row: Row, breaks: seq<Break>, unverified: nat, clean: nat,
                    expectedPrev: Option<string>)
    requires Rewalked(sha, before, breaks, unverified, clean, expectedPrev) && !PreMigration(row)
    requires row.prevEntryHash == expectedPrev && Intact(sha, row)
    ensures Rewalked(sha, before + [row], breaks, unverified, clean + 1, row.entryHash)
  {
    assert Init(before + [row]) == before;
  }

  /** The reason left once forks are not told apart: which of the two checks failed. */
  function MismatchReason(prevMatches: bool, entryMatches: bool): Reason {
    if !prevMatches && !entryMatches then PrevLinkAndEntryHashMismatch
    else if !prevMatches then PrevLinkMismatch
    else EntryHashMismatch
  }

  lemma RewalkBroken(sha: Digest, before: seq<Row>, row: Row, breaks: seq<Break>, unverified: nat, clean: nat,
                     expectedPrev: Option<string>)
    requires Rewalked(sha, before, breaks, unverified, clean, expectedPrev) && !PreMigration(row)
    requires !(row.prevEntryHash == expectedPrev && Intact(sha, row))
    ensures var reason := MismatchReason(row.prevEntryHash == expectedPrev, Intact(sha, row));
            Rewalked(sha, before + [row], breaks + [BreakOf(sha, |before|, expectedPrev, row, reason)],
                     unverified, clean, row.entryHash)
  {
    assert Init(before + [row]) == before;
    var r := Finding(sha, Chained(before), row).value;
    assert Relabel(r) == MismatchReason(row.prevEntryHash == expectedPrev, Intact(sha, row));
    RelabelledSnoc(Breaks(sha, before), BreakOf(sha, |before|, expectedPrev, row, r));
  }

  /** The two walkers agree on every row list, up to the name of a fork. */
  method WalkChain(sha: Digest, orderedRows: seq<Row>) returns (result: VerifyResult)
    ensures result == RelabelledReport(Report(sha, orderedRows))
  {
    var breaks: seq<Break> := [];
    var unverifiedRows, cleanRows := 0, 0;
    var expectedPrev: Option<string> := None;
    for i := 0 to |orderedRows|
      invariant Rewalked(sha, orderedRows[..i], breaks, unverifiedRows, cleanRows, expectedPrev)
    {
      var row := orderedRows[i];
      TakeSnoc(orderedRows, i);
      if row.entryHash.None? && row.prevEntryHash.None? {
        RewalkPreMigration(sha, orderedRows[..i], row, breaks, unverifiedRows, cleanRows, expectedPrev);
        unverifiedRows := unverifiedRows + 1;
        continue;
      }
      var expectedHash := ComputeEntryHash(sha, row, RowHashVersion(row));
      var prevMatches := row.prevEntryHash == expectedPrev;
      var entryMatches := row.entryHash == Some(expectedHash);
      if prevMatches && entryMatches {
        RewalkClean(sha, orderedRows[..i], row, breaks, unverifiedRows, cleanRows, expectedPrev);
        cleanRows := cleanRows + 1;
        expectedPrev := row.entryHash;
        continue;
      }
      RewalkBroken(sha, orderedRows[..i], row, breaks, unverifiedRows, cleanRows, expectedPrev);
      var reason;
      if !prevMatches && !entryMatches {
        reason := PrevLinkAndEntryHashMismatch;
      } else if !prevMatches {
        reason := PrevLinkMismatch;
      } else {
        reason := EntryHashMismatch;
      }
      assert reason == MismatchReason(prevMatches, entryMatches);
      breaks := breaks + [Break(i, row.id, row.action, row.timestamp, row.tenantId, expectedHash,
                                row.entryHash, expectedPrev, row.prevEntryHash, reason)];
      expectedPrev := row.entryHash;
    }
    assert orderedRows[..|orderedRows|] == orderedRows;
    RowsAccountedFor(sha, orderedRows);
    result := VerifyResult(|orderedRows|, unverifiedRows, cleanRows, breaks);
  }

  /** Stored hash of the last row that has one. */
  method ChainHeadOf(rows: seq<Row>) returns (head: string)
    ensures head == HeadOf(Hashed(rows))
  {
    var i := |rows|;
    assert rows[..i] == rows;
    while i > 0
      invariant 0 <= i <= |rows|
      invariant Hashed(rows) == Hashed(rows[..i])
    {
      i := i - 1;
      assert Init(rows[..i + 1]) == rows[..i];
      if rows[i].entryHash.Some? {
        return rows[i].entryHash.value;
      }
    }
    head := "";
  }

  // ---------- the DAG anchor ----------

  datatype DagReason = DagSignatureInvalid | DagParentMismatch | DagHeadMismatch | DagAnchorMissing

  datatype DagBreak = DagBreak(index: int, reason: DagReason)

  datatype DagResult = DagResult(ok: bool, breaks: seq<DagBreak>)

  /** The anchor is there, its signature checks, its parents are the two heads, its head is the merged head. */
  ghost predicate Attests(c: Crypto, anchor: Option<MergeRecord>, headA: string, headB: string, mergedHead: string) {
    anchor.Some? && SignatureVerifies(c, anchor.value) &&
    multiset(anchor.value.body.parents) == multiset([headA, headB]) && anchor.value.body.chainHead == mergedHead
  }

  function DagIf(bad: bool, reason: DagReason): seq<DagBreak> {
    if bad then [DagBreak(0, reason)] else []
  }

  ghost function DagBreaks(c: Crypto, anchor: Option<MergeRecord>, headA: string, headB: string, mergedHead: string): seq<DagBreak> {
    match anchor
    case None => [DagBreak(-1, DagAnchorMissing)]
    case Some(a) =>
      DagIf(!SignatureVerifies(c, a), DagSignatureInvalid) +
      DagIf(multiset(a.body.parents) != multiset([headA, headB]), DagParentMismatch) +
      DagIf(a.body.chainHead != mergedHead, DagHeadMismatch)
  }

  ghost function DagReport(c: Crypto, anchor: Option<MergeRecord>, headA: string, headB: string, mergedHead: string): DagResult {
    var breaks := DagBreaks(c, anchor, headA, headB, mergedHead);
    DagResult(breaks == [], breaks)
  }

  method VerifyDagAnchor(c: Crypto, anchor: Option<MergeRecord>, headA: string, headB: string, mergedHead: string)
    returns (result: DagResult)
    ensures result == DagReport(c, anchor, headA, headB, mergedHead)
  {
    var breaks: seq<DagBreak> := [];
    if anchor.None? {
      breaks := breaks + [DagBreak(-1, DagAnchorMissing)];
      return DagResult(false, breaks);
    }
    var a := anchor.value;
    if !SignatureVerifies(c, a) {
      breaks := breaks + [DagBreak(0, DagSignatureInvalid)];
    }
    assert breaks == DagIf(!SignatureVerifies(c, a), DagSignatureInvalid);
    ghost var b1 := breaks;
    var heads := [headA, headB];
    SameSetIsMultisetEquality(a.body.parents, heads);
    if !SameSet(a.body.parents, heads) {
      breaks := breaks + [DagBreak(0, DagParentMismatch)];
    }
    assert breaks == b1 + DagIf(multiset(a.body.parents) != multiset([headA, headB]), DagParentMismatch);
    ghost var b2 := breaks;
    if a.body.chainHead != mergedHead {
      breaks := breaks + [DagBreak(0, DagHeadMismatch)];
    }
    assert breaks == b2 + DagIf(a.body.chainHead != mergedHead, DagHeadMismatch);
    result := DagResult(|breaks| == 0, breaks);
  }

  /** The anchor check finds nothing exactly when the anchor attests the merge. */
  lemma DagOkIffAttests(c: Crypto, anchor: Option<MergeRecord>, headA: string, headB: string, mergedHead: string)
    ensures DagReport(c, anchor, headA, headB, mergedHead).ok <==> Attests(c, anchor, headA, headB, mergedHead)
  {
  }

  // ---------- the whole verdict ----------

  datatype MergeAuditResult = MergeAuditResult(
    cloneA: VerifyResult, cloneB: VerifyResult, mergedChain: VerifyResult, dagAnchor: DagResult, ok: bool)

  function Latest(log: seq<MergeRecord>): Option<MergeRecord> {
    if |log| == 0 then None else Some(Last(log))
  }

  function Head(rows: seq<Row>): string {
    HeadOf(Hashed(rows))
  }

  ghost function MergeAuditReport(c: Crypto, rowsA: seq<Row>, rowsB: seq<Row>, merged: seq<Row>, log: seq<MergeRecord>): MergeAuditResult {
    var cloneA := Report(c.sha, rowsA);
    var cloneB := Report(c.sha, rowsB);
    var ordered := CanonicalMergeOrder(merged);
    var mergedChain := RelabelledReport(Report(c.sha, ordered));
    var dag := DagReport(c, Latest(log), Head(rowsA), Head(rowsB), Head(ordered));
    MergeAuditResult(cloneA, cloneB, mergedChain, dag,
                     cloneA.breaks == [] && cloneB.breaks == [] && mergedChain.breaks == [] && dag.ok)
  }

  method VerifyMergeAuditChain(c: Crypto, rowsA: seq<Row>, rowsB: seq<Row>, merged: seq<Row>, anchors: seq<MergeRecord>)
    returns (result: MergeAuditResult)
    ensures result == MergeAuditReport(c, rowsA, rowsB, merged, anchors)
  {
    var cloneA := VerifyAuditChain(c.sha, rowsA);
    var cloneB := VerifyAuditChain(c.sha, rowsB);
    var ordered := CanonicalMergeOrder(merged);
    var mergedChain := WalkChain(c.sha, ordered);
    var latest := if |anchors| > 0 then Some(anchors[|anchors| - 1]) else None;
    var headA := ChainHeadOf(rowsA);
    var headB := ChainHeadOf(rowsB);
    var mergedHead := ChainHeadOf(ordered);
    var dagAnchor := VerifyDagAnchor(c, latest, headA, headB, mergedHead);
    var ok := |cloneA.breaks| == 0 && |cloneB.breaks| == 0 && |mergedChain.breaks| == 0 && dagAnchor.ok;
    result := MergeAuditResult(cloneA, cloneB, mergedChain, dagAnchor, ok);
  }

  /** Exactly when a merge passes: three hash paths, the merged one in id order, and an attesting last anchor. */
  lemma MergeOkIff(c: Crypto, rowsA: seq<Row>, rowsB: seq<Row>, merged: seq<Row>, log: seq<MergeRecord>)
    ensures MergeAuditReport(c, rowsA, rowsB, merged, log).ok <==>
            HashPath(c.sha, Chained(rowsA)) && HashPath(c.sha, Chained(rowsB)) &&
            HashPath(c.sha, Chained(CanonicalMergeOrder(merged))) &&
            Attests(c, Latest(log), Head(rowsA), Head(rowsB), Head(CanonicalMergeOrder(merged)))
  {
    NoBreaksIffPath(c.sha, rowsA);
    NoBreaksIffPath(c.sha, rowsB);
    NoBreaksIffPath(c.sha, CanonicalMergeOrder(merged));
    DagOkIffAttests(c, Latest(log), Head(rowsA), Head(rowsB), Head(CanonicalMergeOrder(merged)));
  }

  /** The merged rows may arrive in any order: with unique ids the whole report is the same. */
  lemma MergedOrderIsIrrelevant(c: Crypto, rowsA: seq<Row>, rowsB: seq<Row>, merged: seq<Row>, permuted: seq<Row>, log: seq<MergeRecord>)
    requires UniqueRowIds(merged) && multiset(merged) == multiset(permuted)
    ensures MergeAuditReport(c, rowsA, rowsB, merged, log) == MergeAuditReport(c, rowsA, rowsB, permuted, log)
  {
    CanonicalMergeOrderIsCanonical(merged, permuted);
  }

  /** Which clone is called A decides nothing. */
  lemma ClonesAreInterchangeable(c: Crypto, rowsA: seq<Row>, rowsB: seq<Row>, merged: seq<Row>, log: seq<MergeRecord>)
    ensures var r := MergeAuditReport(c, rowsA, rowsB, merged, log);
            MergeAuditReport(c, rowsB, rowsA, merged, log) == r.(cloneA := r.cloneB, cloneB := r.cloneA)
  {
    assert multiset([Head(rowsA), Head(rowsB)]) == multiset([Head(rowsB), Head(rowsA)]);
  }

  /** Two row lists with the same chained history. */
  ghost predicate SameHistory(a: seq<Row>, b: seq<Row>) {
    |Hashed(a)| == |Hashed(b)| && forall k: nat :: k < |Hashed(a)| ==> SameRecord(Hashed(a)[k], Hashed(b)[k])
  }

  /** No digest of these bodies is the empty text, which stands for the head of an empty chain. */
  ghost predicate HeadsNonempty(sha: Digest, rows: seq<Row>) {
    forall r :: r in Hashed(rows) ==> sha(RowBody(r)) != ""
  }

  /** The digest tells the chains apart, and from empty ones. */
  ghost predicate Comparable(sha: Digest, a: seq<Row>, b: seq<Row>) {
    HeadsNonempty(sha, a) && HeadsNonempty(sha, b) && NoRowCollision(sha, Hashed(a), Hashed(b))
  }

  lemma EmptyIffNoHead(sha: Digest, rows: seq<Row>)
    requires Breaks(sha, rows) == [] && HeadsNonempty(sha, rows)
    ensures Head(rows) == "" <==> Hashed(rows) == []
  {
    CleanHashed(sha, rows);
    var hashed := Hashed(rows);
    if |hashed| > 0 {
      assert StepOk(sha, hashed, |hashed| - 1);
      assert Last(hashed) in hashed;
    }
  }

  /** Clean chains with one head, told apart by the digest, are one history; empty ones included. */
  lemma OneHeadOneHistory(sha: Digest, a: seq<Row>, b: seq<Row>)
    requires HashPath(sha, Chained(a)) && HashPath(sha, Chained(b)) && Comparable(sha, a, b) && Head(a) == Head(b)
    ensures SameHistory(a, b)
  {
    NoBreaksIffPath(sha, a);
    NoBreaksIffPath(sha, b);
    EmptyIffNoHead(sha, a);
    EmptyIffNoHead(sha, b);
    if |Hashed(a)| > 0 {
      HeadFixesChain(sha, a, b);
    }
  }

  lemma SamePair(a: string, b: string, x: string, y: string)
    requires multiset([a, b]) == multiset([x, y])
    ensures (a == x && b == y) || (a == y && b == x)
  {
    assert a in multiset([x, y]) && b in multiset([x, y]) && x in multiset([a, b]) && y in multiset([a, b]);
  }

  /**
   * One attestation, one merge: whatever two merges pass against the same last anchor have the same
   * merged history, and the same two clone histories up to which is called A.
   */
  lemma OneAttestationOneMerge(c: Crypto, a: seq<Row>, b: seq<Row>, m: seq<Row>, a': seq<Row>, b': seq<Row>, m': seq<Row>,
                               log: seq<MergeRecord>, log': seq<MergeRecord>)
    requires MergeAuditReport(c, a, b, m, log).ok && MergeAuditReport(c, a', b', m', log').ok && Latest(log) == Latest(log')
    requires Comparable(c.sha, CanonicalMergeOrder(m), CanonicalMergeOrder(m'))
    requires Comparable(c.sha, a, a') && Comparable(c.sha, b, b') && Comparable(c.sha, a, b') && Comparable(c.sha, b, a')
    ensures SameHistory(CanonicalMergeOrder(m), CanonicalMergeOrder(m'))
    ensures (SameHistory(a, a') && SameHistory(b, b')) || (SameHistory(a, b') && SameHistory(b, a'))
  {
    MergeOkIff(c, a, b, m, log);
    MergeOkIff(c, a', b', m', log');
    OneHeadOneHistory(c.sha, CanonicalMergeOrder(m), CanonicalMergeOrder(m'));
    SamePair(Head(a), Head(b), Head(a'), Head(b'));
    if Head(a) == Head(a') && Head(b) == Head(b') {
      OneHeadOneHistory(c.sha, a, a');
      OneHeadOneHistory(c.sha, b, b');
    } else {
      OneHeadOneHistory(c.sha, a, b');
      OneHeadOneHistory(c.sha, b, a');
    }
  }

  /**
   * A merge signed over its canonical head passes, whatever stood in the anchor log before: two clean
   * clones, empty ones included, and merged rows that are a hash path in id order.
   */
  lemma SignedMergePasses(c: Crypto, a: seq<Row>, b: seq<Row>, m: seq<Row>, log: seq<MergeRecord>, clock: int, o: AppendOptions)
    requires SignaturesCheck(c) && Breaks(c.sha, a) == [] && Breaks(c.sha, b) == []
    requires Breaks(c.sha, CanonicalMergeOrder(m)) == [] && multiset(o.parents) == multiset([Head(a), Head(b)])
    ensures var anchor := NewMergeRecord(c, SnapshotOf(CanonicalMergeOrder(m)), log, clock, o);
            MergeAuditReport(c, a, b, m, log + [anchor]).ok
  {
    var anchor := NewMergeRecord(c, SnapshotOf(CanonicalMergeOrder(m)), log, clock, o);
    assert Last(log + [anchor]) == anchor;
    DagOkIffAttests(c, Some(anchor), Head(a), Head(b), Head(CanonicalMergeOrder(m)));
  }

  lemma OneRow(sha: Digest, row: Row)
    requires Intact(sha, row) && row.prevEntryHash == None
    ensures Breaks(sha, [row]) == [] && Hashed([row]) == [row] && Head([row]) == row.entryHash.value
    ensures CanonicalMergeOrder([row]) == [row]
  {
    assert Init([row]) == [];
    assert Sort([], IdLe) == [];
    BreaksSnoc(sha, [], row);
    assert [] + [row] == [row];
  }

  lemma OneRowComparable(sha: Digest, row: Row)
    requires Hashed([row]) == [row] && sha(RowBody(row)) != ""
    ensures Comparable(sha, [row], [row]) && Comparable(sha, [], []) && Comparable(sha, [row], []) && Comparable(sha, [], [row])
  {
  }

  /** A merge the uniqueness result speaks about: one clone with a row, the other with none. */
  lemma OneRowMergePasses(c: Crypto, row: Row, o: AppendOptions)
    requires SignaturesCheck(c) && Intact(c.sha, row) && row.prevEntryHash == None && row.entryHash != Some("")
    requires o.parents == [row.entryHash.value, ""]
    ensures var log := [] + [NewMergeRecord(c, SnapshotOf(CanonicalMergeOrder([row])), [], 1, o)];
            MergeAuditReport(c, [row], [], [row], log).ok
    ensures Comparable(c.sha, CanonicalMergeOrder([row]), CanonicalMergeOrder([row]))
    ensures Comparable(c.sha, [row], [row]) && Comparable(c.sha, [], []) && Comparable(c.sha, [row], [])
  {
    OneRow(c.sha, row);
    OneRowComparable(c.sha, row);
    SignedMergePasses(c, [row], [], [row], [], 1, o);
  }
}
