/**
 * What an anchor records and what verifying it reports (packages/store/src/audit-anchor.ts), read off
 * the audit rows and the log themselves.
 */
module AnchorVerdict {
  import opened Prelude
  import opened HashLinks
  import opened AuditChain
  import opened AuditAnchor
  import Json

  // ---------- the rows an anchor counts ----------

  /** How many of the first n rows carry a stored hash. */
  ghost function StoredBefore(rows: seq<Row>, n: nat): nat
    requires n <= |rows|
  {
    |set k: nat | k < n && rows[k].entryHash.Some?|
  }

  lemma StoredStep(rows: seq<Row>, n: nat)
    requires n < |rows|
    ensures StoredBefore(rows, n + 1) == StoredBefore(rows, n) + if rows[n].entryHash.Some? then 1 else 0
  {
    var a := set k: nat | k < n && rows[k].entryHash.Some?;
    var b := set k: nat | k < n + 1 && rows[k].entryHash.Some?;
    if rows[n].entryHash.Some? {
      assert b == a + {n};
    } else {
      assert b == a;
    }
  }

  lemma {:induction false} HashedCounts(rows: seq<Row>, n: nat)
    requires n <= |rows|
    ensures |Hashed(rows[..n])| == StoredBefore(rows, n)
  {
    if n > 0 {
      assert Init(rows[..n]) == rows[..n - 1];
      HashedCounts(rows, n - 1);
      StoredStep(rows, n - 1);
    }
  }

  /** The row with m hashed rows before it is number m of the hashed rows. */
  lemma {:induction false} HashedNth(rows: seq<Row>, n: nat, i: nat)
    requires i < n <= |rows| && rows[i].entryHash.Some?
    ensures StoredBefore(rows, i) < |Hashed(rows[..n])| && Hashed(rows[..n])[StoredBefore(rows, i)] == rows[i]
  {
    assert Init(rows[..n]) == rows[..n - 1] && Last(rows[..n]) == rows[n - 1];
    if i < n - 1 {
      HashedNth(rows, n - 1, i);
    } else {
      HashedCounts(rows, i);
    }
  }

  lemma {:induction false} HashedFrom(rows: seq<Row>, n: nat, m: nat) returns (i: nat)
    requires n <= |rows| && m < |Hashed(rows[..n])|
    ensures i < n && rows[i].entryHash.Some? && StoredBefore(rows, i) == m && Hashed(rows[..n])[m] == rows[i]
  {
    assert Init(rows[..n]) == rows[..n - 1] && Last(rows[..n]) == rows[n - 1];
    if m < |Hashed(rows[..n - 1])| {
      i := HashedFrom(rows, n - 1, m);
    } else {
      i := n - 1;
      HashedCounts(rows, i);
    }
  }

  // ---------- the snapshot ----------

  /** An anchor counts the rows with a stored hash and keeps the newest of those hashes, or "" for none. */
  lemma SnapshotCountsStoredHashes(rows: seq<Row>)
    ensures SnapshotOf(rows).count == StoredBefore(rows, |rows|)
    ensures (forall k: nat :: k < |rows| ==> rows[k].entryHash == None) ==> SnapshotOf(rows).head == ""
    ensures forall i: nat ::
              (i < |rows| && rows[i].entryHash.Some? && forall k: nat :: i < k < |rows| ==> rows[k].entryHash == None) ==>
              SnapshotOf(rows).head == rows[i].entryHash.value
  {
    assert rows[..|rows|] == rows;
    HashedCounts(rows, |rows|);
    var m := |Hashed(rows)|;
    if m > 0 {
      var i := HashedFrom(rows, |rows|, m - 1);
      forall k: nat | k < |rows| && rows[k].entryHash.Some?
        ensures k <= i
      {
        if k > i {
          NthIsIncreasing(rows, i, k);
          HashedNth(rows, |rows|, k);
        }
      }
    } else {
      forall k: nat | k < |rows|
        ensures rows[k].entryHash == None
      {
        if rows[k].entryHash.Some? {
          HashedNth(rows, |rows|, k);
        }
      }
    }
  }

  lemma {:induction false} NthIsIncreasing(rows: seq<Row>, i: nat, k: nat)
    requires i < k <= |rows| && rows[i].entryHash.Some?
    ensures StoredBefore(rows, i) < StoredBefore(rows, k)
  {
    StoredStep(rows, k - 1);
    if i < k - 1 {
      NthIsIncreasing(rows, i, k - 1);
    }
  }

  /** An append does nothing exactly when the last record has the same count and head; otherwise it adds this record. */
  lemma AppendSpelledOut(sha: Digest, log: seq<AnchorRecord>, rows: seq<Row>, t: string, now: string)
    ensures var snap, after := SnapshotOf(rows), Appended(sha, log, SnapshotOf(rows), t, now);
            if |log| > 0 && log[|log| - 1].body.chainHead == snap.head && log[|log| - 1].body.chainedRows == snap.count
            then after == log
            else
              |after| == |log| + 1 && after[..|log|] == log &&
              after[|log|].body == AnchorBody(1, now, t, snap.count, snap.head,
                                              if |log| == 0 then None else Some(log[|log| - 1].anchorHash)) &&
              after[|log|].anchorHash == sha(AnchorText(after[|log|].body))
  {
    AnchorTextIsJson(NewAnchor(sha, log, SnapshotOf(rows), t, now).body);
  }

  // ---------- the text ----------

  /** The hashed text of an anchor body, key by key. */
  function AnchorText(b: AnchorBody): string {
    Json.ObjectText(AnchorMembers(b))
  }

  function AnchorMembers(b: AnchorBody): seq<(string, string)> {
    [("schemaVersion", Json.PrintInt(b.schemaVersion)), ("anchoredAt", Json.Quote(b.anchoredAt)),
     ("tenantId", Json.Quote(b.tenantId)), ("chainedRows", Json.PrintInt(b.chainedRows)),
     ("chainHead", Json.Quote(b.chainHead)), ("prevAnchorHash", NullableText(b.prevAnchorHash))]
  }

  lemma AnchorMembersAre(b: AnchorBody)
    ensures Json.Members(AnchorBodyValue(b).fields) == AnchorMembers(b)
  {
    NullablePrints(b.prevAnchorHash);
  }

  lemma AnchorTextIsJson(b: AnchorBody)
    ensures AnchorBodyJson(b) == AnchorText(b)
  {
    hide AnchorMembers;
    AnchorMembersAre(b);
    Json.PrintIsObjectText(AnchorBodyValue(b).fields);
  }

  // ---------- the verdict on a record ----------

  /** The row with n - 1 hashed rows before it carries another hash than this one. */
  ghost predicate NthHashDiffers(rows: seq<Row>, n: int, head: string) {
    exists k: nat :: k < |rows| && rows[k].entryHash.Some? && StoredBefore(rows, k) == n - 1 && rows[k].entryHash.value != head
  }

  /** What each reason says about record i of the log. */
  ghost predicate Finds(sha: Digest, rows: seq<Row>, log: seq<AnchorRecord>, i: nat, reason: AnchorReason)
    requires i < |log|
  {
    var b := log[i].body;
    match reason
    case AnchorHashMismatch => log[i].anchorHash != sha(AnchorText(b))
    case AnchorLinkMismatch => b.prevAnchorHash != if i == 0 then None else Some(log[i - 1].anchorHash)
    case HistoryTruncated => StoredBefore(rows, |rows|) < b.chainedRows
    case HistoryRewritten => 0 < b.chainedRows <= StoredBefore(rows, |rows|) && NthHashDiffers(rows, b.chainedRows, b.chainHead)
  }

  lemma HeadFindingIs(rows: seq<Row>, n: int, head: string)
    ensures HeadFinding(Hashed(rows), n, head) ==
            if StoredBefore(rows, |rows|) < n then Some(HistoryTruncated)
            else if 0 < n && NthHashDiffers(rows, n, head) then Some(HistoryRewritten)
            else None
  {
    hide Hashed, StoredBefore;
    assert rows[..|rows|] == rows;
    HashedCounts(rows, |rows|);
    if 0 < n <= |Hashed(rows)| {
      var i := HashedFrom(rows, |rows|, n - 1);
      forall k: nat | k < |rows| && rows[k].entryHash.Some? && StoredBefore(rows, k) == n - 1
        ensures rows[k] == rows[i]
      {
        HashedNth(rows, |rows|, k);
      }
    }
  }

  /** One record's breaks. */
  function RecordBreaks(sha: Digest, hashed: seq<Row>, log: seq<AnchorRecord>, i: nat): seq<AnchorBreak>
    requires i < |log|
  {
    Found(HashBad(sha, log[i]), i, log[i], AnchorHashMismatch) +
    Found(log[i].body.prevAnchorHash != LogTip(log[..i]), i, log[i], AnchorLinkMismatch) +
    HistoryBreak(hashed, i, log[i])
  }

  lemma FoundMember(bad: bool, i: nat, a: AnchorRecord, reason: AnchorReason, b: AnchorBreak)
    ensures b in Found(bad, i, a, reason) <==> bad && b == AnchorBreak(i, a.body.anchoredAt, reason)
  {
  }

  lemma HistoryBreakMember(hashed: seq<Row>, i: nat, a: AnchorRecord, b: AnchorBreak)
    ensures b in HistoryBreak(hashed, i, a) <==>
            HistoryFinding(hashed, a.body) == Some(b.reason) && b == AnchorBreak(i, a.body.anchoredAt, b.reason)
  {
  }

  lemma FindsIs(sha: Digest, rows: seq<Row>, log: seq<AnchorRecord>, i: nat, reason: AnchorReason)
    requires i < |log|
    ensures Finds(sha, rows, log, i, reason) <==>
            match reason
            case AnchorHashMismatch => HashBad(sha, log[i])
            case AnchorLinkMismatch => log[i].body.prevAnchorHash != LogTip(log[..i])
            case _ => HistoryFinding(Hashed(rows), log[i].body) == Some(reason)
  {
    match reason
    case AnchorHashMismatch => AnchorTextIsJson(log[i].body);
    case AnchorLinkMismatch =>
    case _ => HeadFindingIs(rows, log[i].body.chainedRows, log[i].body.chainHead);
  }

  lemma HistoryReason(hashed: seq<Row>, b: AnchorBody)
    ensures HistoryFinding(hashed, b).Some? ==> HistoryFinding(hashed, b).value in {HistoryTruncated, HistoryRewritten}
  {
  }

  lemma RecordBreaksMember(sha: Digest, rows: seq<Row>, log: seq<AnchorRecord>, i: nat, b: AnchorBreak)
    requires i < |log|
    ensures b in RecordBreaks(sha, Hashed(rows), log, i) <==>
            b.index == i && b.anchoredAt == log[i].body.anchoredAt && Finds(sha, rows, log, i, b.reason)
  {
    hide Found, HistoryBreak, Finds, HashBad, LogTip, Hashed, HistoryFinding;
    FindsIs(sha, rows, log, i, b.reason);
    FoundMember(HashBad(sha, log[i]), i, log[i], AnchorHashMismatch, b);
    FoundMember(log[i].body.prevAnchorHash != LogTip(log[..i]), i, log[i], AnchorLinkMismatch, b);
    HistoryBreakMember(Hashed(rows), i, log[i], b);
    HistoryReason(Hashed(rows), log[i].body);
  }

  lemma AnchorBreaksOneMore(sha: Digest, hashed: seq<Row>, log: seq<AnchorRecord>, i: nat)
    requires i < |log|
    ensures AnchorBreaks(sha, hashed, log[..i + 1]) == AnchorBreaks(sha, hashed, log[..i]) + RecordBreaks(sha, hashed, log, i)
  {
    hide AnchorBreaks, Found, HistoryBreak, HashBad, LogTip;
    AnchorBreaksStep(sha, hashed, log, i);
  }

  lemma {:induction false} AnchorBreaksMember(sha: Digest, rows: seq<Row>, log: seq<AnchorRecord>, n: nat, b: AnchorBreak)
    requires n <= |log|
    ensures b in AnchorBreaks(sha, Hashed(rows), log[..n]) <==>
            b.index < n && b.anchoredAt == log[b.index].body.anchoredAt && Finds(sha, rows, log, b.index, b.reason)
  {
    hide AnchorBreaks, RecordBreaks, Finds, Hashed, HashBad, LogTip, HistoryFinding;
    var hashed := Hashed(rows);
    if n == 0 {
      NoAnchorBreaks(sha, hashed, log);
    } else {
      AnchorBreaksMember(sha, rows, log, n - 1, b);
      AnchorBreaksOneMore(sha, hashed, log, n - 1);
      RecordBreaksMember(sha, rows, log, n - 1, b);
      InConcat(AnchorBreaks(sha, hashed, log[..n - 1]), RecordBreaks(sha, hashed, log, n - 1), b);
    }
  }

  lemma NoAnchorBreaks(sha: Digest, hashed: seq<Row>, log: seq<AnchorRecord>)
    ensures AnchorBreaks(sha, hashed, log[..0]) == []
  {
  }

  lemma InConcat(xs: seq<AnchorBreak>, ys: seq<AnchorBreak>, b: AnchorBreak)
    ensures b in xs + ys <==> b in xs || b in ys
  {
  }

  /**
   * Verifying reports, at each record, exactly what holds of it: its hash does not recompute, it does
   * not name the record before it, fewer rows carry a hash than it counted, or the row that was its
   * newest has another hash.
   */
  lemma AnchorReportIsTheVerdict(sha: Digest, rows: seq<Row>, log: seq<AnchorRecord>, b: AnchorBreak)
    ensures b in AnchorReport(sha, rows, log).anchorBreaks <==>
            b.index < |log| && b.anchoredAt == log[b.index].body.anchoredAt && Finds(sha, rows, log, b.index, b.reason)
  {
    assert log[..|log|] == log;
    AnchorBreaksMember(sha, rows, log, |log|, b);
  }

  function Rank(reason: AnchorReason): nat {
    match reason
    case AnchorHashMismatch => 0
    case AnchorLinkMismatch => 1
    case _ => 2
  }

  predicate Earlier(a: AnchorBreak, b: AnchorBreak) {
    a.index < b.index || (a.index == b.index && Rank(a.reason) < Rank(b.reason))
  }

  lemma RecordBreaksInOrder(sha: Digest, hashed: seq<Row>, log: seq<AnchorRecord>, i: nat)
    requires i < |log|
    ensures Ordered(RecordBreaks(sha, hashed, log, i)) && forall b :: b in RecordBreaks(sha, hashed, log, i) ==> b.index == i
  {
    var hash := Found(HashBad(sha, log[i]), i, log[i], AnchorHashMismatch);
    var link := Found(log[i].body.prevAnchorHash != LogTip(log[..i]), i, log[i], AnchorLinkMismatch);
    HistoryReason(hashed, log[i].body);
    OrderedConcat(hash, link);
    OrderedConcat(hash + link, HistoryBreak(hashed, i, log[i]));
  }

  /** Breaks come in log order, and within a record in the order hash, link, history; each once. */
  lemma {:induction false} AnchorBreaksInOrder(sha: Digest, hashed: seq<Row>, log: seq<AnchorRecord>)
    ensures forall b :: b in AnchorBreaks(sha, hashed, log) ==> b.index < |log|
    ensures Ordered(AnchorBreaks(sha, hashed, log))
  {
    if |log| > 0 {
      hide AnchorBreaks, RecordBreaks;
      var n := |log| - 1;
      AnchorBreaksInOrder(sha, hashed, log[..n]);
      assert log[..n + 1] == log;
      AnchorBreaksOneMore(sha, hashed, log, n);
      RecordBreaksInOrder(sha, hashed, log, n);
      OrderedConcat(AnchorBreaks(sha, hashed, log[..n]), RecordBreaks(sha, hashed, log, n));
    }
  }

  ghost predicate Ordered(bs: seq<AnchorBreak>) {
    forall p: nat, q: nat :: p < q < |bs| ==> Earlier(bs[p], bs[q])
  }

  lemma OrderedConcat(a: seq<AnchorBreak>, b: seq<AnchorBreak>)
    requires Ordered(a) && Ordered(b) && forall x, y :: x in a && y in b ==> Earlier(x, y)
    ensures Ordered(a + b)
  {
    forall p: nat, q: nat | p < q < |a + b|
      ensures Earlier((a + b)[p], (a + b)[q])
    {
      if p < |a| <= q {
        assert a[p] in a && b[q - |a|] in b;
      }
    }
  }
}
