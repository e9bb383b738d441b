/** What a chain head, and an anchor holding one, commit to. */
module AnchorCommitment {
  import opened Prelude
  import opened HashLinks
  import opened AuditChain
  import opened AuditVerify
  import opened AuditAnchor

  /** A stored row as an element of a hash-linked list. */
  function LinkOf(row: Row): Link {
    Link(RowBody(row), row.prevEntryHash, if row.entryHash.Some? then row.entryHash.value else "")
  }

  function Links(chain: seq<Row>): (ls: seq<Link>)
    ensures |ls| == |chain|
    ensures forall i: nat :: i < |chain| ==> ls[i] == LinkOf(chain[i])
  {
    seq(|chain|, i requires 0 <= i < |chain| => LinkOf(chain[i]))
  }

  /** No collision between a row body of one chain and one of the other. */
  ghost predicate NoRowCollision(sha: Digest, a: seq<Row>, b: seq<Row>) {
    forall i: nat, j: nat :: i < |a| && j < |b| && sha(RowBody(a[i])) == sha(RowBody(b[j])) ==>
      RowBody(a[i]) == RowBody(b[j])
  }

  /** Equality in every hashed field, and in both hash columns. */
  predicate SameRecord(a: Row, b: Row) {
    RowHashVersion(a) == RowHashVersion(b) && SameHashedFields(a, b, RowHashVersion(a)) && a.entryHash == b.entryHash
  }

  lemma PathIsLinked(sha: Digest, chain: seq<Row>)
    requires HashPath(sha, chain)
    ensures Linked(sha, Links(chain))
  {
    forall i: nat | i < |chain|
      ensures LinkOk(sha, Links(chain), i)
    {
      assert StepOk(sha, chain, i);
      assert i > 0 ==> StepOk(sha, chain, i - 1);
    }
  }

  lemma SameLinkSameRecord(a: Row, b: Row)
    requires LinkOf(a) == LinkOf(b) && a.entryHash.Some? && b.entryHash.Some?
    ensures SameRecord(a, b)
  {
    RowBodyInjective(a, b);
  }

  /** Equal hashes at two positions of two hash paths: equal positions, and equal records up to there. */
  lemma PathDigestFixesPrefix(sha: Digest, a: seq<Row>, i: nat, b: seq<Row>, j: nat)
    requires HashPath(sha, a) && HashPath(sha, b) && NoRowCollision(sha, a, b)
    requires i < |a| && j < |b| && a[i].entryHash == b[j].entryHash
    ensures i == j && forall k: nat :: k <= i ==> SameRecord(a[k], b[k])
  {
    var x, y := Links(a), Links(b);
    PathIsLinked(sha, a);
    PathIsLinked(sha, b);
    forall p: nat, q: nat | p < |x| && q < |y| && x[p].body == y[q].body
      ensures x[p].prev == y[q].prev
    {
      RowBodyInjective(a[p], b[q]);
    }
    DigestFixesPrefix(sha, x, i, y, j);
    forall k: nat | k <= i
      ensures SameRecord(a[k], b[k])
    {
      assert x[k] == y[k] && StepOk(sha, a, k) && StepOk(sha, b, k);
      SameLinkSameRecord(a[k], b[k]);
    }
  }

  /** Paths that differ somewhere have different hashes from there on. */
  lemma DifferenceReachesTheHead(sha: Digest, a: seq<Row>, b: seq<Row>, p: nat, n: nat)
    requires HashPath(sha, a) && HashPath(sha, b) && NoRowCollision(sha, a, b)
    requires p <= n < |a| && n < |b| && !SameRecord(a[p], b[p])
    ensures a[n].entryHash != b[n].entryHash
  {
    if a[n].entryHash == b[n].entryHash {
      PathDigestFixesPrefix(sha, a, n, b, n);
    }
  }

  /** On a clean chain the rows the walk checks are the rows an anchor counts. */
  lemma {:induction false} CleanHashed(sha: Digest, rows: seq<Row>)
    requires Breaks(sha, rows) == []
    ensures Hashed(rows) == Chained(rows)
    ensures HashPath(sha, Hashed(rows))
  {
    NoBreaksIffPath(sha, rows);
    if |rows| > 0 {
      CleanHashed(sha, Init(rows));
    }
  }

  /** Two clean chains with one head have one length and one history. */
  lemma HeadFixesChain(sha: Digest, rows: seq<Row>, other: seq<Row>)
    requires Breaks(sha, rows) == [] && Breaks(sha, other) == []
    requires NoRowCollision(sha, Hashed(rows), Hashed(other))
    requires |Hashed(rows)| > 0 && |Hashed(other)| > 0 && HeadOf(Hashed(rows)) == HeadOf(Hashed(other))
    ensures |Hashed(rows)| == |Hashed(other)|
    ensures forall k: nat :: k < |Hashed(rows)| ==> SameRecord(Hashed(rows)[k], Hashed(other)[k])
  {
    var a, b := Hashed(rows), Hashed(other);
    CleanHashed(sha, rows);
    CleanHashed(sha, other);
    assert StepOk(sha, a, |a| - 1) && StepOk(sha, b, |b| - 1);
    PathDigestFixesPrefix(sha, a, |a| - 1, b, |b| - 1);
  }

  /** The record freezes the head of the first n hashed rows of a chain, n at least one. */
  predicate Anchors(a: AnchorRecord, rows: seq<Row>) {
    0 < a.body.chainedRows <= |Hashed(rows)| && Hashed(rows)[a.body.chainedRows - 1].entryHash == Some(a.body.chainHead)
  }

  lemma PassingRecordAt(sha: Digest, hashed: seq<Row>, log: seq<AnchorRecord>, i: nat)
    requires i < |log| && AnchorBreaks(sha, hashed, log) == []
    ensures HistoryFinding(hashed, log[i].body) == None
  {
    NoAnchorBreaksIffLogOk(sha, hashed, log);
    assert RecordOk(sha, hashed, log, i);
  }

  /** What a record of a passing log says about the live chain. */
  lemma PassingRecord(sha: Digest, live: seq<Row>, log: seq<AnchorRecord>, a: AnchorRecord)
    requires a in log && AnchorReport(sha, live, log).ok && 0 < a.body.chainedRows
    ensures Breaks(sha, live) == [] && Anchors(a, live)
  {
    var i: nat :| i < |log| && log[i] == a;
    PassingRecordAt(sha, Hashed(live), log, i);
  }

  /**
   * Anchor commitment: once a clean chain was anchored at n rows, whatever rows verify against a
   * log holding that anchor have the same first n chained rows.
   */
  lemma AnchorPinsHistory(sha: Digest, rows: seq<Row>, a: AnchorRecord, live: seq<Row>, log: seq<AnchorRecord>)
    requires Breaks(sha, rows) == [] && Anchors(a, rows)
    requires a in log && AnchorReport(sha, live, log).ok
    requires NoRowCollision(sha, Hashed(rows), Hashed(live))
    ensures a.body.chainedRows <= |Hashed(live)|
    ensures forall k: nat :: k < a.body.chainedRows ==> SameRecord(Hashed(rows)[k], Hashed(live)[k])
  {
    PassingRecord(sha, live, log, a);
    CleanHashed(sha, rows);
    CleanHashed(sha, live);
    var n := a.body.chainedRows - 1;
    PathDigestFixesPrefix(sha, Hashed(rows), n, Hashed(live), n);
  }

  // ---------- the rewrite the walk cannot see ----------

  /** Edited in what an event says, or in the version, or in a hashed timestamp. */
  predicate ContentEdited(row: Row, edited: Row) {
    !(RowHashVersion(row) == RowHashVersion(edited) && SameEvent(row, edited) &&
      (RowHashVersion(row) == V1 ==> row.timestamp == edited.timestamp))
  }

  /** A forward re-hash keeps what every chained row says. */
  lemma {:induction false} RehashKeepsContent(sha: Digest, rows: seq<Row>)
    ensures |Chained(RehashForward(sha, rows))| == |Chained(rows)|
    ensures forall k: nat :: k < |Chained(rows)| ==> !ContentEdited(Chained(rows)[k], Chained(RehashForward(sha, rows))[k])
  {
    if |rows| > 0 {
      var before, row := Init(rows), Last(rows);
      RehashKeepsContent(sha, before);
      var done := RehashForward(sha, before);
      assert Init(done + [NextRow(sha, done, row)]) == done;
      assert RehashForward(sha, rows) == done + [NextRow(sha, done, row)];
      if !PreMigration(row) {
        assert Chained(rows) == Chained(before) + [row];
        assert Chained(RehashForward(sha, rows)) == Chained(done) + [NextRow(sha, done, row)];
      }
    }
  }

  lemma {:induction false} HistoryBreakReported(sha: Digest, hashed: seq<Row>, log: seq<AnchorRecord>, i: nat)
    requires i < |log| && HistoryFinding(hashed, log[i].body).Some?
    ensures AnchorBreak(i, log[i].body.anchoredAt, HistoryFinding(hashed, log[i].body).value) in AnchorBreaks(sha, hashed, log)
  {
    var n := |log| - 1;
    if i < n {
      HistoryBreakReported(sha, hashed, log[..n], i);
    }
  }

  lemma EditedIsNotSame(row: Row, edited: Row, live: Row)
    requires ContentEdited(row, edited) && !ContentEdited(edited, live)
    ensures !SameRecord(row, live)
  {
  }

  /** A record that froze a head of one path reports any path of that length differing before the head. */
  lemma DifferentPathFinding(sha: Digest, past: seq<Row>, live: seq<Row>, p: nat, b: AnchorBody)
    requires HashPath(sha, past) && HashPath(sha, live) && NoRowCollision(sha, past, live)
    requires p < b.chainedRows <= |past| && |live| == |past| && !SameRecord(past[p], live[p])
    requires past[b.chainedRows - 1].entryHash == Some(b.chainHead)
    ensures HistoryFinding(live, b) == Some(HistoryRewritten)
  {
    DifferenceReachesTheHead(sha, past, live, p, b.chainedRows - 1);
  }

  /** After the edit and the re-hash, the chain is a path that differs where it was edited. */
  lemma RewrittenPath(sha: Digest, rows: seq<Row>, edited: seq<Row>, p: nat)
    requires Breaks(sha, rows) == [] && |Chained(edited)| == |Chained(rows)|
    requires p < |Chained(rows)| && ContentEdited(Chained(rows)[p], Chained(edited)[p])
    ensures var live := Hashed(RehashForward(sha, edited));
            HashPath(sha, live) && HashPath(sha, Hashed(rows)) && p < |live| == |Hashed(rows)| &&
            !SameRecord(Hashed(rows)[p], live[p])
  {
    RehashForwardVerifiesClean(sha, edited);
    CleanHashed(sha, rows);
    CleanHashed(sha, RehashForward(sha, edited));
    RehashKeepsContent(sha, edited);
    var was, live := Chained(rows), Chained(RehashForward(sha, edited));
    EditedIsNotSame(was[p], Chained(edited)[p], live[p]);
    assert Hashed(rows) == was && Hashed(RehashForward(sha, edited)) == live;
  }

  /**
   * Editing any chained row at or before an anchored position and re-hashing everything forward
   * leaves a chain the walk calls clean, and every such anchor reports the rewrite.
   */
  lemma RewriteIsReported(sha: Digest, rows: seq<Row>, edited: seq<Row>, p: nat, log: seq<AnchorRecord>, i: nat)
    requires Breaks(sha, rows) == [] && |Chained(edited)| == |Chained(rows)|
    requires p < |Chained(rows)| && ContentEdited(Chained(rows)[p], Chained(edited)[p])
    requires i < |log| && Anchors(log[i], rows) && p < log[i].body.chainedRows
    requires NoRowCollision(sha, Hashed(rows), Hashed(RehashForward(sha, edited)))
    ensures Breaks(sha, RehashForward(sha, edited)) == []
    ensures AnchorBreak(i, log[i].body.anchoredAt, HistoryRewritten)
            in AnchorBreaks(sha, Hashed(RehashForward(sha, edited)), log)
  {
    RehashForwardVerifiesClean(sha, edited);
    CleanHashed(sha, rows);
    RewrittenPath(sha, rows, edited, p);
    var live := Hashed(RehashForward(sha, edited));
    DifferentPathFinding(sha, Hashed(rows), live, p, log[i].body);
    HistoryBreakReported(sha, live, log, i);
  }

  // ---------- the anchor log is itself committed to ----------

  function AnchorLink(a: AnchorRecord): Link {
    Link(AnchorBodyJson(a.body), a.body.prevAnchorHash, a.anchorHash)
  }

  function AnchorLinks(log: seq<AnchorRecord>): (ls: seq<Link>)
    ensures |ls| == |log|
    ensures forall i: nat :: i < |log| ==> ls[i] == AnchorLink(log[i])
  {
    seq(|log|, i requires 0 <= i < |log| => AnchorLink(log[i]))
  }

  /** The log as a hash-linked list. */
  ghost predicate LinkedLog(sha: Digest, log: seq<AnchorRecord>) {
    Linked(sha, AnchorLinks(log))
  }

  lemma OkRecordIsLinkOk(sha: Digest, hashed: seq<Row>, log: seq<AnchorRecord>, i: nat)
    requires i < |log| && RecordOk(sha, hashed, log, i)
    ensures LinkOk(sha, AnchorLinks(log), i)
  {
  }

  lemma LogIsLinked(sha: Digest, hashed: seq<Row>, log: seq<AnchorRecord>)
    requires AnchorBreaks(sha, hashed, log) == []
    ensures LinkedLog(sha, log)
  {
    NoAnchorBreaksIffLogOk(sha, hashed, log);
    forall i: nat | i < |log|
      ensures LinkOk(sha, AnchorLinks(log), i)
    {
      OkRecordIsLinkOk(sha, hashed, log, i);
    }
  }

  lemma AnchorBodiesFixPrev(log: seq<AnchorRecord>, log': seq<AnchorRecord>)
    ensures BodyFixesPrev(AnchorLinks(log), AnchorLinks(log'))
  {
    forall p: nat, q: nat | p < |log| && q < |log'| && AnchorBodyJson(log[p].body) == AnchorBodyJson(log'[q].body)
      ensures log[p].body.prevAnchorHash == log'[q].body.prevAnchorHash
    {
      AnchorBodyJsonInjective(log[p].body, log'[q].body);
    }
  }

  lemma SameAnchorLink(a: AnchorRecord, b: AnchorRecord)
    requires AnchorLink(a) == AnchorLink(b)
    ensures a == b
  {
    AnchorBodyJsonInjective(a.body, b.body);
  }

  lemma LinkedLogsEqual(sha: Digest, log: seq<AnchorRecord>, log': seq<AnchorRecord>)
    requires LinkedLog(sha, log) && LinkedLog(sha, log') && NoCollision(sha, AnchorLinks(log), AnchorLinks(log'))
    requires |log| > 0 && |log'| > 0 && Last(log).anchorHash == Last(log').anchorHash
    ensures log == log'
  {
    AnchorBodiesFixPrev(log, log');
    DigestFixesPrefix(sha, AnchorLinks(log), |log| - 1, AnchorLinks(log'), |log'| - 1);
    forall k: nat | k < |log|
      ensures log[k] == log'[k]
    {
      assert AnchorLinks(log)[k] == AnchorLinks(log')[k];
      SameAnchorLink(log[k], log'[k]);
    }
  }

  /** Publishing the newest anchor hash publishes the whole log: a verifying log with it is the same log. */
  lemma NewestAnchorFixesLog(sha: Digest, hashed: seq<Row>, log: seq<AnchorRecord>, hashed': seq<Row>, log': seq<AnchorRecord>)
    requires AnchorBreaks(sha, hashed, log) == [] && AnchorBreaks(sha, hashed', log') == []
    requires NoCollision(sha, AnchorLinks(log), AnchorLinks(log'))
    requires |log| > 0 && |log'| > 0 && Last(log).anchorHash == Last(log').anchorHash
    ensures log == log'
  {
    LogIsLinked(sha, hashed, log);
    LogIsLinked(sha, hashed', log');
    LinkedLogsEqual(sha, log, log');
  }
}
