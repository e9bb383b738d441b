/**
 * What the chain walk reports about each row (packages/store/src/audit-verify.ts), read off the rows
 * themselves: their hash columns, the nearest hashed row before them, the rows they may hang from.
 */
module AuditVerdict {
  import opened Prelude
  import opened HashLinks
  import opened AuditChain
  import opened AuditVerify

  /** Both hash columns null. */
  predicate Unhashed(row: Row) {
    row.entryHash == None && row.prevEntryHash == None
  }

  ghost predicate Recomputes(sha: Digest, row: Row) {
    row.entryHash == Some(sha(RowBody(row)))
  }

  /** Row j is the nearest row before i with a hash column. */
  ghost predicate JustBefore(rows: seq<Row>, j: nat, i: nat)
    requires i <= |rows|
  {
    j < i && !Unhashed(rows[j]) && forall k: nat :: j < k < i ==> Unhashed(rows[k])
  }

  /** Row i names the stored hash of that row; none before it, none named. */
  ghost predicate LinksBack(rows: seq<Row>, i: nat)
    requires i < |rows|
  {
    (forall j: nat :: JustBefore(rows, j, i) ==> rows[i].prevEntryHash == rows[j].entryHash) &&
    ((forall k: nat :: k < i ==> Unhashed(rows[k])) ==> rows[i].prevEntryHash == None)
  }

  /** Row i names the hash of some earlier row that recomputes. */
  ghost predicate ForksFromEarlier(sha: Digest, rows: seq<Row>, i: nat)
    requires i < |rows|
  {
    rows[i].prevEntryHash.Some? &&
    exists j: nat :: j < i && rows[j].entryHash == rows[i].prevEntryHash && Recomputes(sha, rows[j])
  }

  ghost function Verdict(sha: Digest, rows: seq<Row>, i: nat): Option<Reason>
    requires i < |rows|
  {
    if Unhashed(rows[i]) || (LinksBack(rows, i) && Recomputes(sha, rows[i])) then None
    else if LinksBack(rows, i) then Some(EntryHashMismatch)
    else if !Recomputes(sha, rows[i]) then Some(PrevLinkAndEntryHashMismatch)
    else if ForksFromEarlier(sha, rows, i) then Some(ChainFork)
    else Some(PrevLinkMismatch)
  }

  // ---------- the walk's state, read off the rows ----------

  /** The walk expects the nearest hashed row's stored hash. */
  lemma {:induction false} TipIsJustBefore(rows: seq<Row>, i: nat)
    requires i <= |rows|
    ensures (forall k: nat :: k < i ==> Unhashed(rows[k])) ==> Tip(Chained(rows[..i])) == None
    ensures forall j: nat :: JustBefore(rows, j, i) ==> Tip(Chained(rows[..i])) == rows[j].entryHash
    ensures (forall k: nat :: k < i ==> Unhashed(rows[k])) || exists j: nat :: JustBefore(rows, j, i)
  {
    if i > 0 {
      assert Init(rows[..i]) == rows[..i - 1] && Last(rows[..i]) == rows[i - 1];
      TipIsJustBefore(rows, i - 1);
      if Unhashed(rows[i - 1]) {
        forall j: nat
          ensures JustBefore(rows, j, i) <==> JustBefore(rows, j, i - 1)
        {
        }
        var before := i - 1;
        if j: nat :| JustBefore(rows, j, before) {
          assert JustBefore(rows, j, i);
        }
      } else {
        assert JustBefore(rows, i - 1, i);
      }
    }
  }

  lemma LinksBackIsTip(rows: seq<Row>, i: nat)
    requires i < |rows|
    ensures LinksBack(rows, i) <==> rows[i].prevEntryHash == Tip(Chained(rows[..i]))
  {
    TipIsJustBefore(rows, i);
  }

  lemma {:induction false} ChainedMember(before: seq<Row>, row: Row)
    ensures row in Chained(before) <==> row in before && !Unhashed(row)
  {
    if |before| > 0 {
      ChainedMember(Init(before), row);
      assert row in before <==> row in Init(before) || row == Last(before);
    }
  }

  lemma ForkIsIntactHash(sha: Digest, rows: seq<Row>, i: nat)
    requires i < |rows|
    ensures ForksFromEarlier(sha, rows, i) <==>
            rows[i].prevEntryHash.Some? && rows[i].prevEntryHash.value in IntactHashes(sha, Chained(rows[..i]))
  {
    if rows[i].prevEntryHash.Some? {
      var h, chain := rows[i].prevEntryHash.value, Chained(rows[..i]);
      IntactHashesMember(sha, chain, h);
      if k: nat :| k < |chain| && Intact(sha, chain[k]) && chain[k].entryHash == Some(h) {
        ChainedMember(rows[..i], chain[k]);
        var j: nat :| j < i && rows[..i][j] == chain[k];
        assert rows[j].entryHash == rows[i].prevEntryHash && Recomputes(sha, rows[j]);
      }
      if j: nat :| j < i && rows[j].entryHash == rows[i].prevEntryHash && Recomputes(sha, rows[j]) {
        assert rows[j] == rows[..i][j];
        ChainedMember(rows[..i], rows[j]);
        var k: nat :| k < |chain| && chain[k] == rows[j];
      }
    }
  }

  /** One row: the walk's finding is the verdict, with the row's own columns in the break. */
  lemma BreakAtIsVerdict(sha: Digest, rows: seq<Row>, i: nat)
    requires i < |rows|
    ensures BreakAt(sha, rows[..i], rows[i]) ==
            match Verdict(sha, rows, i)
            case None => None
            case Some(reason) => Some(BreakFor(sha, rows, i, reason))
  {
    LinksBackIsTip(rows, i);
    ForkIsIntactHash(sha, rows, i);
  }

  /** The break a row gets: its position, its columns, the recomputed hash, the hash it should have named. */
  ghost function BreakFor(sha: Digest, rows: seq<Row>, i: nat, reason: Reason): Break
    requires i < |rows|
  {
    var row := rows[i];
    Break(i, row.id, row.action, row.timestamp, row.tenantId, sha(RowBody(row)), row.entryHash,
          Tip(Chained(rows[..i])), row.prevEntryHash, reason)
  }

  // ---------- the whole report ----------

  lemma BreakAtIsHere(sha: Digest, before: seq<Row>, row: Row)
    ensures BreakAt(sha, before, row).Some? ==> BreakAt(sha, before, row).value.index == |before|
  {
  }

  lemma {:induction false} BreaksAreBreakAts(sha: Digest, rows: seq<Row>, n: nat, b: Break)
    requires n <= |rows|
    ensures b in Breaks(sha, rows[..n]) <==> b.index < n && BreakAt(sha, rows[..b.index], rows[b.index]) == Some(b)
  {
    hide BreakAt;
    if n > 0 {
      assert Init(rows[..n]) == rows[..n - 1] && Last(rows[..n]) == rows[n - 1];
      BreakAtIsHere(sha, rows[..n - 1], rows[n - 1]);
      BreaksAreBreakAts(sha, rows, n - 1, b);
    }
  }

  /**
   * The walk reports, at each row, exactly the verdict on that row: nothing where both hash columns
   * are null, and otherwise what the link and the recomputed hash say. A row with one null column is
   * never skipped.
   */
  lemma ReportIsTheVerdict(sha: Digest, rows: seq<Row>, b: Break)
    ensures b in Report(sha, rows).breaks <==>
            b.index < |rows| && Verdict(sha, rows, b.index).Some? &&
            b == BreakFor(sha, rows, b.index, Verdict(sha, rows, b.index).value)
  {
    assert rows[..|rows|] == rows;
    BreaksAreBreakAts(sha, rows, |rows|, b);
    if b.index < |rows| {
      BreakAtIsVerdict(sha, rows, b.index);
    }
  }

  /** A stored hash set to null is reported, whatever the link: the walk skips only rows with neither column. */
  lemma NulledHashIsReported(sha: Digest, rows: seq<Row>, i: nat)
    requires i < |rows| && rows[i].entryHash.None? && rows[i].prevEntryHash.Some?
    ensures exists b :: b in Report(sha, rows).breaks && b.index == i && b.reason in {EntryHashMismatch, PrevLinkAndEntryHashMismatch}
  {
    var b := BreakFor(sha, rows, i, Verdict(sha, rows, i).value);
    ReportIsTheVerdict(sha, rows, b);
  }

  /** The expected link a break shows is the nearest hashed row's stored hash, or null before all of them. */
  lemma ExpectedLinkShown(sha: Digest, rows: seq<Row>, b: Break)
    requires b in Report(sha, rows).breaks
    ensures b.index < |rows|
    ensures (forall k: nat :: k < b.index ==> Unhashed(rows[k])) ==> b.expectedPrevEntryHash == None
    ensures forall j: nat :: JustBefore(rows, j, b.index) ==> b.expectedPrevEntryHash == rows[j].entryHash
  {
    ReportIsTheVerdict(sha, rows, b);
    TipIsJustBefore(rows, b.index);
  }

  /** Breaks come in row order, at most one a row. */
  lemma {:induction false} BreaksInOrder(sha: Digest, rows: seq<Row>)
    ensures forall p: nat, q: nat :: p < q < |Breaks(sha, rows)| ==> Breaks(sha, rows)[p].index < Breaks(sha, rows)[q].index
    ensures forall b :: b in Breaks(sha, rows) ==> b.index < |rows|
  {
    if |rows| > 0 {
      BreaksInOrder(sha, Init(rows));
    }
  }

  /** Positions below n of rows with both hash columns null. */
  ghost function UnhashedAt(rows: seq<Row>, n: nat): set<nat>
    requires n <= |rows|
  {
    set i: nat | i < n && Unhashed(rows[i])
  }

  lemma {:induction false} UnverifiedCountsUnhashed(rows: seq<Row>, n: nat)
    requires n <= |rows|
    ensures Unverified(rows[..n]) == |UnhashedAt(rows, n)|
  {
    if n > 0 {
      assert Init(rows[..n]) == rows[..n - 1];
      UnverifiedCountsUnhashed(rows, n - 1);
      if Unhashed(rows[n - 1]) {
        assert UnhashedAt(rows, n) == UnhashedAt(rows, n - 1) + {n - 1};
      } else {
        assert UnhashedAt(rows, n) == UnhashedAt(rows, n - 1);
      }
    }
  }

  /** The totals: every row counted, unverified exactly those with both columns null, clean the rest without a break. */
  lemma TotalsAreCounts(sha: Digest, rows: seq<Row>)
    ensures var r := Report(sha, rows);
            r.totalRows == |rows| && r.unverifiedRows == |set i: nat | i < |rows| && rows[i].entryHash == None && rows[i].prevEntryHash == None| &&
            r.cleanRows + |r.breaks| + r.unverifiedRows == |rows|
    ensures forall b :: b in Report(sha, rows).breaks ==>
              b.index < |rows| && !(rows[b.index].entryHash == None && rows[b.index].prevEntryHash == None)
  {
    forall b | b in Report(sha, rows).breaks
      ensures b.index < |rows| && !Unhashed(rows[b.index])
    {
      ReportIsTheVerdict(sha, rows, b);
    }
    assert rows[..|rows|] == rows;
    UnverifiedCountsUnhashed(rows, |rows|);
    assert UnhashedAt(rows, |rows|) == set i: nat | i < |rows| && rows[i].entryHash == None && rows[i].prevEntryHash == None;
    RowsAccountedFor(sha, rows);
  }
}
