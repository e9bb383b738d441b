/** The linear chain verifier (packages/store/src/audit-verify.ts). */
module AuditVerify {
  import opened Prelude
  import opened HashLinks
  import opened AuditChain

  datatype Reason = EntryHashMismatch | PrevLinkMismatch | PrevLinkAndEntryHashMismatch | ChainFork

  datatype Break = Break(
    index: nat,
    id: string,
    action: string,
    timestamp: string,
    tenantId: string,
    expectedEntryHash: string,
    actualEntryHash: Option<string>,
    expectedPrevEntryHash: Option<string>,
    actualPrevEntryHash: Option<string>,
    reason: Reason)

  datatype VerifyResult = VerifyResult(totalRows: nat, unverifiedRows: nat, cleanRows: nat, breaks: seq<Break>)

  // ---------- what the walk decides about one row ----------

  /** A row from before the chain existed: both hash columns null. */
  predicate PreMigration(row: Row) {
    row.entryHash.None? && row.prevEntryHash.None?
  }

  predicate Intact(sha: Digest, row: Row) {
    row.entryHash == Some(ExpectedHash(sha, row))
  }

  function Chained(rows: seq<Row>): seq<Row> {
    if |rows| == 0 then []
    else if PreMigration(Last(rows)) then Chained(Init(rows))
    else Chained(Init(rows)) + [Last(rows)]
  }

  function Unverified(rows: seq<Row>): nat {
    if |rows| == 0 then 0 else Unverified(Init(rows)) + if PreMigration(Last(rows)) then 1 else 0
  }

  /** What the next chained row should link to: the stored hash of the chained row before it. */
  function Tip(chain: seq<Row>): Option<string> {
    if |chain| == 0 then None else Last(chain).entryHash
  }

  /** Stored hashes a later row may fork from: only rows whose own hash matched. */
  function IntactHashes(sha: Digest, chain: seq<Row>): set<string> {
    if |chain| == 0 then {}
    else if Intact(sha, Last(chain)) then IntactHashes(sha, Init(chain)) + {ExpectedHash(sha, Last(chain))}
    else IntactHashes(sha, Init(chain))
  }

  /** The finding on a chained row that follows the given chained rows; None is clean. */
  function Finding(sha: Digest, chain: seq<Row>, row: Row): Option<Reason> {
    var prevMatches := row.prevEntryHash == Tip(chain);
    var entryMatches := Intact(sha, row);
    if prevMatches && entryMatches then None
    else if entryMatches && row.prevEntryHash.Some? && row.prevEntryHash.value in IntactHashes(sha, chain)
      then Some(ChainFork)
    else if !prevMatches && !entryMatches then Some(PrevLinkAndEntryHashMismatch)
    else if !prevMatches then Some(PrevLinkMismatch)
    else Some(EntryHashMismatch)
  }

  function BreakOf(sha: Digest, index: nat, tip: Option<string>, row: Row, reason: Reason): Break {
    Break(index, row.id, row.action, row.timestamp, row.tenantId,
          ExpectedHash(sha, row), row.entryHash, tip, row.prevEntryHash, reason)
  }

  /** The break, if any, that a row contributes after the given rows. */
  function BreakAt(sha: Digest, before: seq<Row>, row: Row): Option<Break> {
    if PreMigration(row) then None
    else
      var chain := Chained(before);
      match Finding(sha, chain, row)
      case None => None
      case Some(reason) => Some(BreakOf(sha, |before|, Tip(chain), row, reason))
  }

  function Breaks(sha: Digest, rows: seq<Row>): seq<Break> {
    if |rows| == 0 then []
    else
      match BreakAt(sha, Init(rows), Last(rows))
      case None => Breaks(sha, Init(rows))
      case Some(b) => Breaks(sha, Init(rows)) + [b]
  }

  /** The whole report, as a function of the rows. */
  function Report(sha: Digest, rows: seq<Row>): VerifyResult {
    RowsAccountedFor(sha, rows);
    VerifyResult(|rows|, Unverified(rows), |Chained(rows)| - |Breaks(sha, rows)|, Breaks(sha, rows))
  }

  lemma {:induction false} RowsAccountedFor(sha: Digest, rows: seq<Row>)
    ensures Unverified(rows) + |Chained(rows)| == |rows|
    ensures |Breaks(sha, rows)| <= |Chained(rows)|
  {
    if |rows| > 0 {
      RowsAccountedFor(sha, Init(rows));
    }
  }

  // ---------- the walk ----------

  method VerifyAuditChain(sha: Digest, rows: seq<Row>) returns (result: VerifyResult)
    ensures result == Report(sha, rows)
  {
    var breaks: seq<Break> := [];
    var unverifiedRows, cleanRows := 0, 0;
    var expectedPrev: Option<string> := None;
    var seenEntryHashes: set<string> := {};
    for i := 0 to |rows|
      invariant Walked(sha, rows[..i], breaks, unverifiedRows, cleanRows, expectedPrev, seenEntryHashes)
    {
      var row := rows[i];
      TakeSnoc(rows, i);
      if row.entryHash.None? && row.prevEntryHash.None? {
        StepPreMigration(sha, rows[..i], row, breaks, unverifiedRows, cleanRows, expectedPrev, seenEntryHashes);
        unverifiedRows := unverifiedRows + 1;
        continue;
      }
      StepChained(sha, rows[..i], row, breaks, unverifiedRows, cleanRows, expectedPrev, seenEntryHashes);
      var expectedHash := ComputeEntryHash(sha, row, RowHashVersion(row));
      var prevMatches := row.prevEntryHash == expectedPrev;
      var entryMatches := row.entryHash == Some(expectedHash);
      if prevMatches && entryMatches {
        cleanRows := cleanRows + 1;
        expectedPrev := row.entryHash;
        seenEntryHashes := seenEntryHashes + {row.entryHash.value};
        continue;
      }
      var reason;
      if entryMatches && row.prevEntryHash.Some? && row.prevEntryHash.value in seenEntryHashes {
        reason := ChainFork;
      } else if !prevMatches && !entryMatches {
        reason := PrevLinkAndEntryHashMismatch;
      } else if !prevMatches {
        reason := PrevLinkMismatch;
      } else {
        reason := EntryHashMismatch;
      }
      breaks := breaks + [Break(i, row.id, row.action, row.timestamp, row.tenantId, expectedHash,
                                row.entryHash, expectedPrev, row.prevEntryHash, reason)];
      expectedPrev := row.entryHash;
      if entryMatches {
        seenEntryHashes := seenEntryHashes + {row.entryHash.value};
      }
    }
    assert rows[..|rows|] == rows;
    RowsAccountedFor(sha, rows);
    result := VerifyResult(|rows|, unverifiedRows, cleanRows, breaks);
  }

  /** What the walk's variables mean once the given rows are behind it. */
  ghost predicate Walked(sha: Digest, before: seq<Row>, breaks: seq<Break>, unverified: nat, clean: nat,
                         expectedPrev: Option<string>, seen: set<string>)
  {
    breaks == Breaks(sha, before) &&
    unverified == Unverified(before) &&
    clean + unverified + |breaks| == |before| &&
    expectedPrev == Tip(Chained(before)) &&
    seen == IntactHashes(sha, Chained(before))
  }

  lemma StepPreMigration(sha: Digest, before: seq<Row>, row: Row, breaks: seq<Break>, unverified: nat, clean: nat,
                         expectedPrev: Option<string>, seen: set<string>)
    requires Walked(sha, before, breaks, unverified, clean, expectedPrev, seen) && PreMigration(row)
    ensures Walked(sha, before + [row], breaks, unverified + 1, clean, expectedPrev, seen)
  {
    assert Init(before + [row]) == before;
  }

  lemma StepChained(sha: Digest, before: seq<Row>, row: Row, breaks: seq<Break>, unverified: nat, clean: nat,
                    expectedPrev: Option<string>, seen: set<string>)
    requires Walked(sha, before, breaks, unverified, clean, expectedPrev, seen) && !PreMigration(row)
    ensures var seen' := if Intact(sha, row) then seen + {row.entryHash.value} else seen;
            match Finding(sha, Chained(before), row)
            case None => Walked(sha, before + [row], breaks, unverified, clean + 1, row.entryHash, seen')
            case Some(reason) =>
              Walked(sha, before + [row], breaks + [BreakOf(sha, |before|, expectedPrev, row, reason)],
                     unverified, clean, row.entryHash, seen')
  {
    hide Chained, Breaks, Unverified, IntactHashes, Finding, Intact, ExpectedHash;
    ChainedSnoc(sha, before, row);
    BreaksSnoc(sha, before, row);
    var longer := Chained(before) + [row];
    assert Tip(longer) == row.entryHash;
  }

  lemma ChainedSnoc(sha: Digest, before: seq<Row>, row: Row)
    requires !PreMigration(row)
    ensures Chained(before + [row]) == Chained(before) + [row] && Unverified(before + [row]) == Unverified(before)
    ensures IntactHashes(sha, Chained(before) + [row]) ==
            IntactHashes(sha, Chained(before)) + if Intact(sha, row) then {row.entryHash.value} else {}
  {
    assert Init(before + [row]) == before;
    assert Init(Chained(before) + [row]) == Chained(before);
  }

  // ---------- the exact verdict ----------

  /** Row k recomputes, and hangs below an earlier row of the chain (the first one below nothing). */
  ghost predicate NodeOk(sha: Digest, chain: seq<Row>, k: nat)
    requires k < |chain|
  {
    Intact(sha, chain[k]) && Hangs(chain[..k], chain[k])
  }

  ghost predicate Hangs(earlier: seq<Row>, row: Row) {
    if |earlier| == 0 then row.prevEntryHash == None
    else exists j: nat :: j < |earlier| && row.prevEntryHash == earlier[j].entryHash
  }

  /** A rooted hash tree in write order. */
  ghost predicate RootedTree(sha: Digest, chain: seq<Row>) {
    forall k: nat :: k < |chain| ==> NodeOk(sha, chain, k)
  }

  /** Row k recomputes and names the row just before it. */
  ghost predicate StepOk(sha: Digest, chain: seq<Row>, k: nat)
    requires k < |chain|
  {
    Intact(sha, chain[k]) && chain[k].prevEntryHash == if k == 0 then None else chain[k - 1].entryHash
  }

  ghost predicate HashPath(sha: Digest, chain: seq<Row>) {
    forall k: nat :: k < |chain| ==> StepOk(sha, chain, k)
  }

  lemma {:induction false} IntactHashesMember(sha: Digest, chain: seq<Row>, h: string)
    ensures h in IntactHashes(sha, chain) <==>
            exists j: nat :: j < |chain| && Intact(sha, chain[j]) && chain[j].entryHash == Some(h)
  {
    if |chain| > 0 {
      var n := |chain| - 1;
      IntactHashesMember(sha, chain[..n], h);
      assert forall j: nat :: j < n ==> chain[..n][j] == chain[j];
    }
  }

  lemma RootedTreeSnoc(sha: Digest, chain: seq<Row>, row: Row)
    ensures RootedTree(sha, chain + [row]) <==>
            RootedTree(sha, chain) && Intact(sha, row) && Hangs(chain, row)
  {
    var longer, n := chain + [row], |chain|;
    assert forall k: nat :: k <= n ==> longer[..k] == chain[..k];
    assert chain[..n] == chain;
    assert forall k: nat :: k < n ==> NodeOk(sha, longer, k) == NodeOk(sha, chain, k);
    assert NodeOk(sha, longer, n) == (Intact(sha, row) && Hangs(chain, row));
  }

  lemma HashPathSnoc(sha: Digest, chain: seq<Row>, row: Row)
    ensures HashPath(sha, chain + [row]) <==>
            HashPath(sha, chain) && Intact(sha, row) && row.prevEntryHash == Tip(chain)
  {
    var longer, n := chain + [row], |chain|;
    assert forall k: nat :: k < n ==> StepOk(sha, longer, k) == StepOk(sha, chain, k);
    assert StepOk(sha, longer, n) == (Intact(sha, row) && row.prevEntryHash == Tip(chain));
  }

  /** Below an intact tree, a row is clean or a fork exactly when it hangs from the tree. */
  lemma FindingBelowTree(sha: Digest, chain: seq<Row>, row: Row)
    requires RootedTree(sha, chain)
    ensures Finding(sha, chain, row) in {None, Some(ChainFork)} <==> Intact(sha, row) && Hangs(chain, row)
  {
    if |chain| > 0 {
      assert forall j: nat :: j < |chain| ==> NodeOk(sha, chain, j) && Intact(sha, chain[j]);
      assert chain[|chain| - 1].entryHash == Tip(chain);
      if row.prevEntryHash.Some? {
        IntactHashesMember(sha, chain, row.prevEntryHash.value);
      }
    }
  }

  /** The walk reports nothing worse than forks exactly on the rooted hash trees. */
  lemma {:induction false} OnlyForksIffTree(sha: Digest, rows: seq<Row>)
    ensures (forall b :: b in Breaks(sha, rows) ==> b.reason == ChainFork) <==> RootedTree(sha, Chained(rows))
  {
    if |rows| > 0 {
      var before, row := Init(rows), Last(rows);
      OnlyForksIffTree(sha, before);
      if !PreMigration(row) {
        RootedTreeSnoc(sha, Chained(before), row);
        if RootedTree(sha, Chained(before)) {
          FindingBelowTree(sha, Chained(before), row);
        }
      }
      match BreakAt(sha, before, row)
      case None =>
      case Some(b) => assert b in Breaks(sha, rows);
    }
  }

  /** The walk reports nothing at all exactly on the hash paths. */
  lemma {:induction false} NoBreaksIffPath(sha: Digest, rows: seq<Row>)
    ensures Breaks(sha, rows) == [] <==> HashPath(sha, Chained(rows))
  {
    if |rows| > 0 {
      NoBreaksIffPath(sha, Init(rows));
      if !PreMigration(Last(rows)) {
        HashPathSnoc(sha, Chained(Init(rows)), Last(rows));
      }
    }
  }

  // ---------- what an edit shows ----------

  /** Two row lists whose stored hash columns agree everywhere. */
  ghost predicate SameStoredHashes(rows: seq<Row>, edited: seq<Row>) {
    |rows| == |edited| &&
    forall i: nat :: i < |rows| ==>
      rows[i].entryHash == edited[i].entryHash && rows[i].prevEntryHash == edited[i].prevEntryHash
  }

  /** The digest tells an edited body from the one it replaced. */
  ghost predicate EditsChangeDigest(sha: Digest, rows: seq<Row>, edited: seq<Row>)
    requires |rows| == |edited|
  {
    forall i: nat :: i < |rows| && sha(RowBody(rows[i])) == sha(RowBody(edited[i])) ==>
      RowBody(rows[i]) == RowBody(edited[i])
  }

  predicate HashedContentEdited(row: Row, edited: Row) {
    !(RowHashVersion(row) == RowHashVersion(edited) && SameHashedFields(row, edited, RowHashVersion(row)))
  }

  /** Positions of chained rows whose hashed content was edited, in order. */
  function EditedPositions(rows: seq<Row>, edited: seq<Row>): seq<nat>
    requires |rows| == |edited|
  {
    if |rows| == 0 then []
    else
      var earlier := EditedPositions(Init(rows), Init(edited));
      if !PreMigration(Last(rows)) && HashedContentEdited(Last(rows), Last(edited))
        then earlier + [|rows| - 1] else earlier
  }

  function Positions(breaks: seq<Break>): seq<nat> {
    if |breaks| == 0 then [] else Positions(Init(breaks)) + [Last(breaks).index]
  }

  lemma {:induction false} SameTips(rows: seq<Row>, edited: seq<Row>)
    requires SameStoredHashes(rows, edited)
    ensures Tip(Chained(rows)) == Tip(Chained(edited))
  {
    if |rows| > 0 {
      var n := |rows| - 1;
      assert Init(rows) == rows[..n] && Init(edited) == edited[..n];
      SameTips(rows[..n], edited[..n]);
    }
  }

  lemma FindingOnEdit(sha: Digest, chain: seq<Row>, row: Row, chain': seq<Row>, edited: Row)
    requires Finding(sha, chain, row) == None && Tip(chain) == Tip(chain')
    requires row.entryHash == edited.entryHash && row.prevEntryHash == edited.prevEntryHash
    requires sha(RowBody(row)) == sha(RowBody(edited)) ==> RowBody(row) == RowBody(edited)
    ensures Finding(sha, chain', edited) == if HashedContentEdited(row, edited) then Some(EntryHashMismatch) else None
  {
    RowBodyInjective(row, edited);
  }

  /**
   * Editing hashed content of a clean chain, stored hashes left alone, breaks exactly the edited
   * rows, in order, each as an entry-hash mismatch.
   */
  lemma {:induction false} EditsAreLocalized(sha: Digest, rows: seq<Row>, edited: seq<Row>)
    requires Breaks(sha, rows) == [] && SameStoredHashes(rows, edited) && EditsChangeDigest(sha, rows, edited)
    ensures Positions(Breaks(sha, edited)) == EditedPositions(rows, edited)
    ensures forall b :: b in Breaks(sha, edited) ==> b.reason == EntryHashMismatch
  {
    if |rows| > 0 {
      var n := |rows| - 1;
      assert Init(rows) == rows[..n] && Init(edited) == edited[..n];
      EditsAreLocalized(sha, rows[..n], edited[..n]);
      if !PreMigration(rows[n]) {
        SameTips(rows[..n], edited[..n]);
        FindingOnEdit(sha, Chained(rows[..n]), rows[n], Chained(edited[..n]), edited[n]);
      }
    }
  }

  // ---------- re-hashing forward ----------

  /** A row given the link and the hash its position calls for. */
  function Rehashed(sha: Digest, chain: seq<Row>, row: Row): Row {
    var linked := row.(prevEntryHash := Tip(chain));
    linked.(entryHash := Some(ExpectedHash(sha, linked)))
  }

  /** The row a forward re-hash writes after the given rows; pre-migration rows stay as they are. */
  function NextRow(sha: Digest, before: seq<Row>, row: Row): Row {
    if PreMigration(row) then row else Rehashed(sha, Chained(before), row)
  }

  /** Every chained row re-hashed forward over whatever content the rows now hold. */
  function RehashForward(sha: Digest, rows: seq<Row>): seq<Row> {
    if |rows| == 0 then []
    else
      var before := RehashForward(sha, Init(rows));
      before + [NextRow(sha, before, Last(rows))]
  }

  lemma BreaksSnoc(sha: Digest, before: seq<Row>, row: Row)
    ensures Breaks(sha, before + [row]) ==
            match BreakAt(sha, before, row) case None => Breaks(sha, before) case Some(b) => Breaks(sha, before) + [b]
  {
    assert Init(before + [row]) == before;
  }

  /** The walk alone cannot see it: any content verifies clean once re-hashed forward. */
  lemma {:induction false} RehashForwardVerifiesClean(sha: Digest, rows: seq<Row>)
    ensures Breaks(sha, RehashForward(sha, rows)) == []
  {
    if |rows| > 0 {
      RehashForwardVerifiesClean(sha, Init(rows));
      BreaksSnoc(sha, RehashForward(sha, Init(rows)), Last(RehashForward(sha, rows)));
    }
  }

  lemma NextRowOfClean(sha: Digest, before: seq<Row>, row: Row)
    requires BreakAt(sha, before, row) == None
    ensures NextRow(sha, before, row) == row
  {
    if !PreMigration(row) {
      assert row.(prevEntryHash := Tip(Chained(before))) == row;
    }
  }

  lemma RehashForwardSnoc(sha: Digest, before: seq<Row>, row: Row)
    ensures RehashForward(sha, before + [row]) ==
            RehashForward(sha, before) + [NextRow(sha, RehashForward(sha, before), row)]
  {
    assert Init(before + [row]) == before;
  }

  /** Re-hashing a clean chain changes nothing. */
  lemma {:induction false} RehashForwardOfClean(sha: Digest, rows: seq<Row>)
    requires Breaks(sha, rows) == []
    ensures RehashForward(sha, rows) == rows
  {
    if |rows| > 0 {
      var before, row := Init(rows), Last(rows);
      assert rows == before + [row];
      BreaksSnoc(sha, before, row);
      RehashForwardOfClean(sha, before);
      NextRowOfClean(sha, before, row);
      RehashForwardSnoc(sha, before, row);
    }
  }
}
