/**
 * What a signed merge anchor records and what the merge verifier reports
 * (packages/store/src/signed-merge-anchor.ts, packages/store/src/audit-verify-merge.ts), read off the
 * rows and the log themselves.
 */
module MergeVerdict {
  import opened Prelude
  import opened HashLinks
  import opened AuditChain
  import opened AuditVerify
  import opened AuditAnchor
  import opened AnchorVerdict
  import opened AuditVerdict
  import opened SignedMergeAnchor
  import opened AuditVerifyMerge
  import opened Sorting
  import Json

  // ---------- the text ----------

  function Quoted(xs: seq<string>): (r: seq<string>)
    ensures |r| == |xs| && forall i :: 0 <= i < |xs| ==> r[i] == Json.Quote(xs[i])
  {
    seq(|xs|, i requires 0 <= i < |xs| => Json.Quote(xs[i]))
  }

  /** The members of the signed body, key by key, with the parents given in ascending order. */
  function MergeMembers(b: MergeBody, parents: seq<string>): seq<(string, string)> {
    [("schemaVersion", Json.PrintInt(b.schemaVersion)), ("anchoredAt", Json.Quote(b.anchoredAt)),
     ("tenantId", Json.Quote(b.tenantId)), ("chainedRows", Json.PrintInt(b.chainedRows)),
     ("chainHead", Json.Quote(b.chainHead)), ("parents", Json.ArrayText(Quoted(parents))),
     ("commitHash", NullableText(b.commitHash)), ("lamportClock", Json.PrintInt(b.lamportClock)),
     ("prevAnchorHash", NullableText(b.prevAnchorHash)), ("signerPublicKey", Json.Quote(b.signerPublicKey))]
  }

  function MergeText(b: MergeBody, parents: seq<string>): string {
    Json.ObjectText(MergeMembers(b, parents))
  }

  lemma {:induction false} StrsAre(xs: seq<string>)
    ensures |Strs(xs)| == |xs| && forall i :: 0 <= i < |xs| ==> Strs(xs)[i] == Json.Str(xs[i])
  {
    if |xs| > 0 {
      StrsAre(Init(xs));
    }
  }

  lemma ParentsText(xs: seq<string>)
    ensures Json.Print(Json.Arr(Strs(xs))) == Json.ArrayText(Quoted(xs))
  {
    StrsAre(xs);
    Json.PrintIsArrayText(Strs(xs));
    assert Json.Printed(Strs(xs)) == Quoted(xs);
  }

  lemma MergeMembersAre(b: MergeBody)
    ensures Json.Members(MergeBodyValue(b).fields) == MergeMembers(b, SortStrings(b.parents))
  {
    ParentsText(SortStrings(b.parents));
    NullablePrints(b.commitHash);
    NullablePrints(b.prevAnchorHash);
  }

  /** The signed and hashed text of a body, key by key; the parents in ascending order of UTF-16 code units. */
  lemma MergeBodySpelledOut(b: MergeBody, parents: seq<string>)
    requires multiset(parents) == multiset(b.parents) && AscendingUnits(parents)
    ensures MergeBodyJson(b) == MergeText(b, parents)
  {
    hide MergeMembers;
    StringOrder();
    SortSorted(b.parents, StringLe);
    SortMultiset(b.parents, StringLe);
    AscendingIsSorted(parents);
    SortedUnique(parents, SortStrings(b.parents), StringLe);
    MergeMembersAre(b);
    Json.PrintIsObjectText(MergeBodyValue(b).fields);
  }

  /** The record an append writes: schema 2, the snapshot's count and head, the log's tip, the signer's public half. */
  lemma NewMergeRecordSpelledOut(c: Crypto, rows: seq<Row>, log: seq<MergeRecord>, clock: int, o: AppendOptions)
    ensures var r, snap := NewMergeRecord(c, SnapshotOf(rows), log, clock, o), SnapshotOf(rows);
            r.body == MergeBody(2, o.anchoredAt, o.tenantId, snap.count, snap.head, o.parents, o.commitHash, clock,
                                if |log| == 0 then None else Some(log[|log| - 1].anchorHash), c.publicKey(o.privateKey)) &&
            forall parents: seq<string> :: multiset(parents) == multiset(o.parents) && AscendingUnits(parents) ==>
              r.signature == c.sign(MergeText(r.body, parents), o.privateKey) &&
              r.anchorHash == c.sha(MergeText(r.body, parents))
  {
    var r := NewMergeRecord(c, SnapshotOf(rows), log, clock, o);
    forall parents: seq<string> | multiset(parents) == multiset(o.parents) && AscendingUnits(parents)
      ensures MergeBodyJson(r.body) == MergeText(r.body, parents)
    {
      MergeBodySpelledOut(r.body, parents);
    }
  }

  // ---------- the verdict on a record ----------

  /** What each reason says about record i of the log, its body's text being the given one. */
  ghost predicate MergeFinds(c: Crypto, rows: seq<Row>, log: seq<MergeRecord>, expected: Option<seq<string>>, i: nat, reason: MergeReason)
    requires i < |log|
  {
    var b := log[i].body;
    match reason
    case MergeHashMismatch => log[i].anchorHash != c.sha(MergeBodyJson(b))
    case MergeSignatureInvalid => !c.check(MergeBodyJson(b), b.signerPublicKey, log[i].signature)
    case MergeLinkMismatch => b.prevAnchorHash != if i == 0 then None else Some(log[i - 1].anchorHash)
    case MergeHistory(HistoryTruncated) => StoredBefore(rows, |rows|) < b.chainedRows
    case MergeHistory(HistoryRewritten) =>
      0 < b.chainedRows <= StoredBefore(rows, |rows|) && NthHashDiffers(rows, b.chainedRows, b.chainHead)
    case MergeHistory(_) => false
    case MergeParentMismatch =>
      i == |log| - 1 && expected.Some? && multiset(b.parents) != multiset(expected.value)
  }

  lemma FoundMergeMember(bad: bool, i: nat, a: MergeRecord, reason: MergeReason, b: MergeBreak)
    ensures b in FoundMerge(bad, i, a, reason) <==> bad && b == MergeBreak(i, a.body.anchoredAt, reason)
  {
  }

  lemma MergeHistoryBreakMember(hashed: seq<Row>, i: nat, a: MergeRecord, b: MergeBreak)
    ensures b in MergeHistoryBreak(hashed, i, a) <==>
            b.reason.MergeHistory? && HeadFinding(hashed, a.body.chainedRows, a.body.chainHead) == Some(b.reason.finding) &&
            b == MergeBreak(i, a.body.anchoredAt, b.reason)
  {
  }

  lemma MergeFindsIs(c: Crypto, rows: seq<Row>, log: seq<MergeRecord>, expected: Option<seq<string>>, i: nat, reason: MergeReason)
    requires i < |log|
    ensures MergeFinds(c, rows, log, expected, i, reason) <==>
            match reason
            case MergeHashMismatch => ComputeMergeHash(c, log[i].body) != log[i].anchorHash
            case MergeSignatureInvalid => !SignatureVerifies(c, log[i])
            case MergeLinkMismatch => log[i].body.prevAnchorHash != MergeTip(log[..i])
            case MergeHistory(f) => HeadFinding(Hashed(rows), log[i].body.chainedRows, log[i].body.chainHead) == Some(f)
            case MergeParentMismatch => i == |log| - 1 && expected.Some? && !SameSet(log[i].body.parents, expected.value)
  {
    match reason
    case MergeHistory(f) => HeadFindingIs(rows, log[i].body.chainedRows, log[i].body.chainHead);
    case MergeParentMismatch =>
      if expected.Some? {
        SameSetIsMultisetEquality(log[i].body.parents, expected.value);
      }
    case _ =>
  }

  /** One record's breaks, the parent check apart. */
  function MergeRecordBreaks(c: Crypto, hashed: seq<Row>, log: seq<MergeRecord>, i: nat): seq<MergeBreak>
    requires i < |log|
  {
    FoundMerge(ComputeMergeHash(c, log[i].body) != log[i].anchorHash, i, log[i], MergeHashMismatch) +
    FoundMerge(!SignatureVerifies(c, log[i]), i, log[i], MergeSignatureInvalid) +
    FoundMerge(log[i].body.prevAnchorHash != MergeTip(log[..i]), i, log[i], MergeLinkMismatch) +
    MergeHistoryBreak(hashed, i, log[i])
  }

  lemma MergeRecordBreaksMember(c: Crypto, rows: seq<Row>, log: seq<MergeRecord>, expected: Option<seq<string>>, i: nat, b: MergeBreak)
    requires i < |log|
    ensures b in MergeRecordBreaks(c, Hashed(rows), log, i) <==>
            b.index == i && b.anchoredAt == log[i].body.anchoredAt && b.reason != MergeParentMismatch &&
            MergeFinds(c, rows, log, expected, i, b.reason)
  {
    hide FoundMerge, MergeHistoryBreak, MergeFinds, ComputeMergeHash, SignatureVerifies, MergeTip, Hashed, HeadFinding, SameSet;
    MergeFindsIs(c, rows, log, expected, i, b.reason);
    FoundMergeMember(ComputeMergeHash(c, log[i].body) != log[i].anchorHash, i, log[i], MergeHashMismatch, b);
    FoundMergeMember(!SignatureVerifies(c, log[i]), i, log[i], MergeSignatureInvalid, b);
    FoundMergeMember(log[i].body.prevAnchorHash != MergeTip(log[..i]), i, log[i], MergeLinkMismatch, b);
    MergeHistoryBreakMember(Hashed(rows), i, log[i], b);
  }

  lemma {:induction false} MergeBreaksMember(c: Crypto, rows: seq<Row>, log: seq<MergeRecord>, expected: Option<seq<string>>, n: nat, b: MergeBreak)
    requires n <= |log|
    ensures b in MergeBreaks(c, Hashed(rows), log[..n]) <==>
            b.index < n && b.anchoredAt == log[b.index].body.anchoredAt && b.reason != MergeParentMismatch &&
            MergeFinds(c, rows, log, expected, b.index, b.reason)
  {
    if n > 0 {
      MergeBreaksMember(c, rows, log, expected, n - 1, b);
      MergeBreaksStep(c, Hashed(rows), log, n - 1);
      MergeRecordBreaksMember(c, rows, log, expected, n - 1, b);
    }
  }

  /**
   * Verifying reports, at each record, exactly what holds of it: its hash or its signature does not
   * check, it does not name the record before it, the live chain lacks or rewrote its head; and at the
   * last record, that its parents are not the expected multiset.
   */
  lemma MergeReportIsTheVerdict(c: Crypto, rows: seq<Row>, log: seq<MergeRecord>, expected: Option<seq<string>>, b: MergeBreak)
    ensures b in MergeReport(c, rows, log, expected).breaks <==>
            b.index < |log| && b.anchoredAt == log[b.index].body.anchoredAt &&
            MergeFinds(c, rows, log, expected, b.index, b.reason)
  {
    assert log[..|log|] == log;
    MergeBreaksMember(c, rows, log, expected, |log|, b);
    if b.index < |log| {
      MergeFindsIs(c, rows, log, expected, b.index, b.reason);
    }
  }

  // ---------- the merge verifier ----------

  /** The second walker's breaks are the first one's, row by row, a fork named a link mismatch. */
  lemma {:induction false} RelabelledAt(breaks: seq<Break>, i: nat)
    requires i < |breaks|
    ensures Relabelled(breaks)[i] == breaks[i].(reason := if breaks[i].reason == ChainFork then PrevLinkMismatch else breaks[i].reason)
  {
    if i < |breaks| - 1 {
      RelabelledAt(Init(breaks), i);
    }
  }

  /** What the re-walk reports about a row: the linear walk's verdict, forks not told apart from other link mismatches. */
  lemma RewalkIsTheVerdict(sha: Digest, rows: seq<Row>, b: Break)
    ensures b in RelabelledReport(Report(sha, rows)).breaks <==>
            b.index < |rows| && Verdict(sha, rows, b.index).Some? &&
            b == BreakFor(sha, rows, b.index,
                          if Verdict(sha, rows, b.index) == Some(ChainFork) then PrevLinkMismatch
                          else Verdict(sha, rows, b.index).value)
    ensures var first, second := Report(sha, rows), RelabelledReport(Report(sha, rows));
            second.totalRows == first.totalRows && second.unverifiedRows == first.unverifiedRows &&
            second.cleanRows == first.cleanRows && |second.breaks| == |first.breaks|
  {
    var breaks := Report(sha, rows).breaks;
    if b in Relabelled(breaks) {
      var i: nat :| i < |breaks| && Relabelled(breaks)[i] == b;
      RelabelledAt(breaks, i);
      ReportIsTheVerdict(sha, rows, breaks[i]);
    }
    if b.index < |rows| && Verdict(sha, rows, b.index).Some? {
      var plain := BreakFor(sha, rows, b.index, Verdict(sha, rows, b.index).value);
      ReportIsTheVerdict(sha, rows, plain);
      var i: nat :| i < |breaks| && breaks[i] == plain;
      RelabelledAt(breaks, i);
      assert Relabelled(breaks)[i] in Relabelled(breaks);
    }
  }

  /** What the anchor check reports: at index -1 that there is none, else at index 0 each condition that fails. */
  lemma DagReportIsTheVerdict(c: Crypto, anchor: Option<MergeRecord>, headA: string, headB: string, mergedHead: string, b: DagBreak)
    ensures b in DagReport(c, anchor, headA, headB, mergedHead).breaks <==>
            match b.reason
            case DagAnchorMissing => b.index == -1 && anchor.None?
            case DagSignatureInvalid =>
              b.index == 0 && anchor.Some? &&
              !c.check(MergeBodyJson(anchor.value.body), anchor.value.body.signerPublicKey, anchor.value.signature)
            case DagParentMismatch =>
              b.index == 0 && anchor.Some? && multiset(anchor.value.body.parents) != multiset{headA, headB}
            case DagHeadMismatch => b.index == 0 && anchor.Some? && anchor.value.body.chainHead != mergedHead
  {
    assert multiset([headA, headB]) == multiset{headA, headB};
  }

  /** A head is the newest stored hash, or the empty text. */
  lemma HeadIsNewestHash(rows: seq<Row>)
    ensures (forall k: nat :: k < |rows| ==> rows[k].entryHash == None) ==> Head(rows) == ""
    ensures forall i: nat ::
              (i < |rows| && rows[i].entryHash.Some? && forall k: nat :: i < k < |rows| ==> rows[k].entryHash == None) ==>
              Head(rows) == rows[i].entryHash.value
  {
    SnapshotCountsStoredHashes(rows);
  }
}
