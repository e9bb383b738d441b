/** External anchoring of the audit chain (packages/store/src/audit-anchor.ts). */
module AuditAnchor {
  import opened Prelude
  import opened HashLinks
  import opened AuditChain
  import opened AuditVerify
  import Json

  datatype AnchorBody = AnchorBody(
    schemaVersion: int,
    anchoredAt: string,
    tenantId: string,
    chainedRows: int,
    chainHead: string,
    prevAnchorHash: Option<string>)

  datatype AnchorRecord = AnchorRecord(body: AnchorBody, anchorHash: string)

  datatype AnchorReason = AnchorHashMismatch | AnchorLinkMismatch | HistoryTruncated | HistoryRewritten

  datatype AnchorBreak = AnchorBreak(index: nat, anchoredAt: string, reason: AnchorReason)

  datatype AnchorVerifyResult = AnchorVerifyResult(
    chain: VerifyResult, anchorCount: nat, anchorBreaks: seq<AnchorBreak>, ok: bool)

  function AnchorBodyValue(b: AnchorBody): Json.Value {
    Json.Obj([
      Json.Field("schemaVersion", Json.Num(b.schemaVersion)),
      Json.Field("anchoredAt", Json.Str(b.anchoredAt)),
      Json.Field("tenantId", Json.Str(b.tenantId)),
      Json.Field("chainedRows", Json.Num(b.chainedRows)),
      Json.Field("chainHead", Json.Str(b.chainHead)),
      Json.Field("prevAnchorHash", Nullable(b.prevAnchorHash))])
  }

  function AnchorBodyJson(b: AnchorBody): string {
    Json.Print(AnchorBodyValue(b))
  }

  function ComputeAnchorHash(sha: Digest, b: AnchorBody): string {
    sha(AnchorBodyJson(b))
  }

  lemma AnchorBodyValueInjective(a: AnchorBody, b: AnchorBody)
    requires AnchorBodyValue(a) == AnchorBodyValue(b)
    ensures a == b
  {
    var x, y := AnchorBodyValue(a).fields, AnchorBodyValue(b).fields;
    assert x[0] == y[0] && x[1] == y[1] && x[2] == y[2] && x[3] == y[3] && x[4] == y[4] && x[5] == y[5];
  }

  lemma AnchorBodyJsonInjective(a: AnchorBody, b: AnchorBody)
    ensures AnchorBodyJson(a) == AnchorBodyJson(b) <==> a == b
  {
    if AnchorBodyJson(a) == AnchorBodyJson(b) {
      Json.PrintInjective(AnchorBodyValue(a), AnchorBodyValue(b));
      AnchorBodyValueInjective(a, b);
    }
  }

  /** Rows that carry a stored hash: the rows an anchor counts. */
  function Hashed(rows: seq<Row>): seq<Row> {
    if |rows| == 0 then []
    else if Last(rows).entryHash.Some? then Hashed(Init(rows)) + [Last(rows)]
    else Hashed(Init(rows))
  }

  function HeadOf(hashed: seq<Row>): string {
    if |hashed| > 0 && Last(hashed).entryHash.Some? then Last(hashed).entryHash.value else ""
  }

  // ---------- appending ----------

  /** What an anchor freezes about the chain. */
  datatype Snapshot = Snapshot(count: nat, head: string)

  function SnapshotOf(rows: seq<Row>): Snapshot {
    Snapshot(|Hashed(rows)|, HeadOf(Hashed(rows)))
  }

  function LogTip(log: seq<AnchorRecord>): Option<string> {
    if |log| == 0 then None else Some(Last(log).anchorHash)
  }

  predicate AlreadyAnchored(log: seq<AnchorRecord>, snap: Snapshot) {
    |log| > 0 && Last(log).body.chainHead == snap.head && Last(log).body.chainedRows == snap.count
  }

  function NewAnchor(sha: Digest, log: seq<AnchorRecord>, snap: Snapshot, tenantId: string, now: string): AnchorRecord {
    var body := AnchorBody(1, now, tenantId, snap.count, snap.head, LogTip(log));
    AnchorRecord(body, ComputeAnchorHash(sha, body))
  }

  /** The log after an append call: unchanged when the snapshot is the one already witnessed. */
  function Appended(sha: Digest, log: seq<AnchorRecord>, snap: Snapshot, tenantId: string, now: string): seq<AnchorRecord> {
    if AlreadyAnchored(log, snap) then log else log + [NewAnchor(sha, log, snap, tenantId, now)]
  }

  /** The append-only anchor log. */
  class AnchorLog {
    const sha: Digest
    var records: seq<AnchorRecord>

    constructor (sha: Digest)
      ensures this.sha == sha && records == []
    {
      this.sha := sha;
      records := [];
    }

    method AppendAnchor(rows: seq<Row>, tenantId: string, now: string) returns (record: AnchorRecord)
      modifies this
      ensures records == Appended(sha, old(records), SnapshotOf(rows), tenantId, now)
      ensures record == Last(records)
      ensures SnapshotOf(rows) == Snapshot(record.body.chainedRows, record.body.chainHead)
    {
      var hashed := Hashed(rows);
      var head := HeadOf(hashed);
      if |records| > 0 {
        var last := records[|records| - 1];
        if last.body.chainHead == head && last.body.chainedRows == |hashed| {
          return last;
        }
      }
      var prevAnchorHash := if |records| > 0 then Some(records[|records| - 1].anchorHash) else None;
      var body := AnchorBody(1, now, tenantId, |hashed|, head, prevAnchorHash);
      record := AnchorRecord(body, ComputeAnchorHash(sha, body));
      records := records + [record];
    }
  }

  /** A second call with no insert in between leaves any log as the first call left it. */
  lemma AppendTwiceIsOnce(sha: Digest, log: seq<AnchorRecord>, snap: Snapshot, t: string, now: string, t': string, now': string)
    ensures var once := Appended(sha, log, snap, t, now);
            Appended(sha, once, snap, t', now') == once
  {
  }

  // ---------- verifying ----------

  predicate HashBad(sha: Digest, a: AnchorRecord) {
    ComputeAnchorHash(sha, a.body) != a.anchorHash
  }

  /** What the live chain says against a head frozen at n rows. */
  function HeadFinding(hashed: seq<Row>, n: int, head: string): Option<AnchorReason> {
    if |hashed| < n then Some(HistoryTruncated)
    else if n > 0 && hashed[n - 1].entryHash != Some(head) then Some(HistoryRewritten)
    else None
  }

  function HistoryFinding(hashed: seq<Row>, b: AnchorBody): Option<AnchorReason> {
    HeadFinding(hashed, b.chainedRows, b.chainHead)
  }

  function Found(bad: bool, i: nat, a: AnchorRecord, reason: AnchorReason): seq<AnchorBreak> {
    if bad then [AnchorBreak(i, a.body.anchoredAt, reason)] else []
  }

  /** The breaks of the log: each record contributes at most one of each of the three kinds. */
  function AnchorBreaks(sha: Digest, hashed: seq<Row>, log: seq<AnchorRecord>): seq<AnchorBreak> {
    if |log| == 0 then []
    else
      var i, a := |log| - 1, Last(log);
      AnchorBreaks(sha, hashed, Init(log)) +
      Found(HashBad(sha, a), i, a, AnchorHashMismatch) +
      Found(a.body.prevAnchorHash != LogTip(Init(log)), i, a, AnchorLinkMismatch) +
      HistoryBreak(hashed, i, a)
  }

  function HistoryBreak(hashed: seq<Row>, i: nat, a: AnchorRecord): seq<AnchorBreak> {
    match HistoryFinding(hashed, a.body)
    case None => []
    case Some(reason) => [AnchorBreak(i, a.body.anchoredAt, reason)]
  }

  function AnchorReport(sha: Digest, rows: seq<Row>, log: seq<AnchorRecord>): AnchorVerifyResult {
    var chain := Report(sha, rows);
    var breaks := AnchorBreaks(sha, Hashed(rows), log);
    AnchorVerifyResult(chain, |log|, breaks, chain.breaks == [] && breaks == [])
  }

  method VerifyCapturedAnchors(sha: Digest, rows: seq<Row>, chain: VerifyResult, anchors: seq<AnchorRecord>)
    returns (result: AnchorVerifyResult)
    requires chain == Report(sha, rows)
    ensures result == AnchorReport(sha, rows, anchors)
  {
    var hashed := Hashed(rows);
    var anchorBreaks: seq<AnchorBreak> := [];
    var expectedPrev: Option<string> := None;
    for i := 0 to |anchors|
      invariant expectedPrev == LogTip(anchors[..i])
      invariant anchorBreaks == AnchorBreaks(sha, hashed, anchors[..i])
    {
      var a := anchors[i];
      AnchorBreaksStep(sha, hashed, anchors, i);
      ghost var b0 := anchorBreaks;
      if ComputeAnchorHash(sha, a.body) != a.anchorHash {
        anchorBreaks := anchorBreaks + [AnchorBreak(i, a.body.anchoredAt, AnchorHashMismatch)];
      }
      assert anchorBreaks == b0 + Found(HashBad(sha, a), i, a, AnchorHashMismatch);
      ghost var b1 := anchorBreaks;
      if a.body.prevAnchorHash != expectedPrev {
        anchorBreaks := anchorBreaks + [AnchorBreak(i, a.body.anchoredAt, AnchorLinkMismatch)];
      }
      assert anchorBreaks == b1 + Found(a.body.prevAnchorHash != expectedPrev, i, a, AnchorLinkMismatch);
      ghost var b2 := anchorBreaks;
      if |hashed| < a.body.chainedRows {
        anchorBreaks := anchorBreaks + [AnchorBreak(i, a.body.anchoredAt, HistoryTruncated)];
      } else if a.body.chainedRows > 0 {
        var actualHead := hashed[a.body.chainedRows - 1].entryHash;
        if actualHead != Some(a.body.chainHead) {
          anchorBreaks := anchorBreaks + [AnchorBreak(i, a.body.anchoredAt, HistoryRewritten)];
        }
      }
      assert anchorBreaks == b2 + HistoryBreak(hashed, i, a);
      expectedPrev := Some(a.anchorHash);
    }
    assert anchors[..|anchors|] == anchors;
    result := AnchorVerifyResult(chain, |anchors|, anchorBreaks, |chain.breaks| == 0 && |anchorBreaks| == 0);
  }

  method VerifyAnchors(sha: Digest, rows: seq<Row>, anchors: seq<AnchorRecord>) returns (result: AnchorVerifyResult)
    ensures result == AnchorReport(sha, rows, anchors)
    ensures result.chain == Report(sha, rows) && result.anchorCount == |anchors|
    ensures result.ok <==> |result.chain.breaks| == 0 && |result.anchorBreaks| == 0
  {
    var chain := VerifyAuditChain(sha, rows);
    result := VerifyCapturedAnchors(sha, rows, chain, anchors);
  }

  lemma AnchorBreaksStep(sha: Digest, hashed: seq<Row>, log: seq<AnchorRecord>, i: nat)
    requires i < |log|
    ensures LogTip(log[..i + 1]) == Some(log[i].anchorHash)
    ensures AnchorBreaks(sha, hashed, log[..i + 1]) ==
            AnchorBreaks(sha, hashed, log[..i]) +
            Found(HashBad(sha, log[i]), i, log[i], AnchorHashMismatch) +
            Found(log[i].body.prevAnchorHash != LogTip(log[..i]), i, log[i], AnchorLinkMismatch) +
            HistoryBreak(hashed, i, log[i])
  {
    assert Init(log[..i + 1]) == log[..i];
  }

  /** Record i passes: it hashes, names its predecessor, and the live chain still has its head. */
  ghost predicate RecordOk(sha: Digest, hashed: seq<Row>, log: seq<AnchorRecord>, i: nat)
    requires i < |log|
  {
    !HashBad(sha, log[i]) && log[i].body.prevAnchorHash == LogTip(log[..i]) && HistoryFinding(hashed, log[i].body) == None
  }

  ghost predicate LogOk(sha: Digest, hashed: seq<Row>, log: seq<AnchorRecord>) {
    forall i: nat :: i < |log| ==> RecordOk(sha, hashed, log, i)
  }

  lemma LogOkSnoc(sha: Digest, hashed: seq<Row>, log: seq<AnchorRecord>, a: AnchorRecord)
    ensures LogOk(sha, hashed, log + [a]) <==>
            LogOk(sha, hashed, log) && !HashBad(sha, a) && a.body.prevAnchorHash == LogTip(log) &&
            HistoryFinding(hashed, a.body) == None
  {
    var longer, n := log + [a], |log|;
    assert forall i: nat :: i <= n ==> longer[..i] == log[..i];
    assert log[..n] == log;
    assert forall i: nat :: i < n ==> RecordOk(sha, hashed, longer, i) == RecordOk(sha, hashed, log, i);
    assert RecordOk(sha, hashed, longer, n) ==
           (!HashBad(sha, a) && a.body.prevAnchorHash == LogTip(log) && HistoryFinding(hashed, a.body) == None);
  }

  /** No anchor break is reported exactly when every record passes. */
  lemma {:induction false} NoAnchorBreaksIffLogOk(sha: Digest, hashed: seq<Row>, log: seq<AnchorRecord>)
    ensures AnchorBreaks(sha, hashed, log) == [] <==> LogOk(sha, hashed, log)
  {
    if |log| > 0 {
      NoAnchorBreaksIffLogOk(sha, hashed, Init(log));
      LogOkSnoc(sha, hashed, Init(log), Last(log));
      assert log == Init(log) + [Last(log)];
    }
  }
}
