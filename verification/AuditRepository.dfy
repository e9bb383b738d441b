/** The append rule of the audit store (packages/store/src/repositories/audit-repository.ts). */
module AuditRepository {
  import opened Prelude
  import opened HashLinks
  import opened AuditChain
  import opened AuditVerify

  datatype Event = Event(
    id: string,
    action: string,
    memoryId: string,
    tenantId: string,
    actorJson: string,
    reason: Option<string>,
    detailsJson: string,
    timestamp: string)

  /** Stored hash of the newest row that has one. */
  function LastHash(rows: seq<Row>): Option<string> {
    if |rows| == 0 then None
    else if Last(rows).entryHash.Some? then Last(rows).entryHash
    else LastHash(Init(rows))
  }

  function MaxSeq(rows: seq<Row>): int {
    if |rows| == 0 then 0
    else
      var m := MaxSeq(Init(rows));
      match Last(rows).seqNo
      case None => m
      case Some(s) => if s > m then s else m
  }

  /** The row an insert writes after the given rows: version 2, linked to the newest hash. */
  function NewRow(sha: Digest, rows: seq<Row>, e: Event): Row {
    var row := Row(e.id, e.action, e.memoryId, e.tenantId, e.actorJson, e.reason, e.detailsJson, e.timestamp,
                   None, LastHash(rows), Some(2), Some(MaxSeq(rows) + 1));
    row.(entryHash := Some(ComputeEntryHash(sha, row, V2)))
  }

  /** The store: rows in write order, changed by insertion only. */
  class AuditRepository {
    const sha: Digest
    var rows: seq<Row>

    constructor (sha: Digest)
      ensures this.sha == sha && rows == []
    {
      this.sha := sha;
      rows := [];
    }

    method Insert(event: Event)
      modifies this
      ensures rows == old(rows) + [NewRow(sha, old(rows), event)]
      ensures Last(rows) == Row(event.id, event.action, event.memoryId, event.tenantId, event.actorJson, event.reason,
                                event.detailsJson, event.timestamp, Some(sha(RowBody(Last(rows)))), LastHash(old(rows)),
                                Some(2), Some(MaxSeq(old(rows)) + 1))
      ensures Breaks(sha, old(rows)) == [] ==> Breaks(sha, rows) == []
    {
      if Breaks(sha, rows) == [] {
        InsertKeepsClean(sha, rows, event);
      }
      var prevEntryHash := LastHash(rows);
      var row := Row(event.id, event.action, event.memoryId, event.tenantId, event.actorJson, event.reason,
                     event.detailsJson, event.timestamp, None, prevEntryHash, Some(2), Some(MaxSeq(rows) + 1));
      var entryHash := ComputeEntryHash(sha, row, V2);
      rows := rows + [row.(entryHash := Some(entryHash))];
    }
  }

  /** On a clean chain the newest hash is the one the walk will expect. */
  lemma {:induction false} LastHashIsTip(sha: Digest, rows: seq<Row>)
    requires Breaks(sha, rows) == []
    ensures LastHash(rows) == Tip(Chained(rows))
  {
    if |rows| > 0 {
      LastHashIsTip(sha, Init(rows));
    }
  }

  lemma InsertKeepsClean(sha: Digest, rows: seq<Row>, e: Event)
    requires Breaks(sha, rows) == []
    ensures Breaks(sha, rows + [NewRow(sha, rows, e)]) == []
    ensures Chained(rows + [NewRow(sha, rows, e)]) == Chained(rows) + [NewRow(sha, rows, e)]
  {
    var row := NewRow(sha, rows, e);
    LastHashIsTip(sha, rows);
    assert CanonicalRowJson(row, V2) == CanonicalRowJson(row.(entryHash := None), V2);
    assert Intact(sha, row);
    BreaksSnoc(sha, rows, row);
    assert Init(rows + [row]) == rows;
  }

  /** The hash a new row names is that of the newest row with one; null when no row has one. */
  lemma {:induction false} LastHashIsNewest(rows: seq<Row>)
    ensures LastHash(rows) == None <==> forall k: nat :: k < |rows| ==> rows[k].entryHash == None
    ensures forall i: nat ::
              (i < |rows| && rows[i].entryHash.Some? && forall k: nat :: i < k < |rows| ==> rows[k].entryHash == None) ==>
              LastHash(rows) == rows[i].entryHash
  {
    if |rows| > 0 {
      LastHashIsNewest(Init(rows));
      assert forall k: nat :: k < |rows| - 1 ==> Init(rows)[k] == rows[k];
    }
  }

  /** A new row's write number is above every stored one, and the least such that is positive. */
  lemma {:induction false} MaxSeqIsLeastBound(rows: seq<Row>)
    ensures MaxSeq(rows) >= 0 && forall i: nat :: i < |rows| && rows[i].seqNo.Some? ==> rows[i].seqNo.value <= MaxSeq(rows)
    ensures MaxSeq(rows) > 0 ==> exists i: nat :: i < |rows| && rows[i].seqNo == Some(MaxSeq(rows))
  {
    if |rows| > 0 {
      MaxSeqIsLeastBound(Init(rows));
      assert forall k: nat :: k < |rows| - 1 ==> Init(rows)[k] == rows[k];
      var m := MaxSeq(Init(rows));
      if m > 0 {
        var i: nat :| i < |rows| - 1 && Init(rows)[i].seqNo == Some(m);
        assert rows[i].seqNo == Some(m);
      }
    }
  }
}
