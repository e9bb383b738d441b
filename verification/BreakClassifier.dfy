/**
 * Sorting the walk's breaks into documented exceptions, tamper signatures and forks
 * (packages/store/src/exception-manifest.ts), and pinning them (apps/curator/src/cli.ts).
 */
module BreakClassifier {
  import opened Prelude
  import opened HashLinks
  import opened AuditChain
  import opened AuditVerify
  import opened ExceptionManifest

  // ---------- what a row is pinned by ----------

  /** What the database holds for a row right now, absent version and sequence number defaulted. */
  datatype StoredTuple = StoredTuple(entryHash: Option<string>, prevEntryHash: Option<string>, hashVersion: int, seqNo: int)

  function OrElse(o: Option<int>, d: int): int {
    if o.Some? then o.value else d
  }

  function TupleOf(row: Row): StoredTuple {
    StoredTuple(row.entryHash, row.prevEntryHash, OrElse(row.hashVersion, 1), OrElse(row.seqNo, 0))
  }

  function PinnedTuple(e: Entry): StoredTuple {
    StoredTuple(e.entryHash, e.prevEntryHash, e.hashVersion, e.seqNo)
  }

  function Pin(row: Row, reason: Reason): Entry {
    Entry(row.id, row.entryHash, row.prevEntryHash, OrElse(row.hashVersion, 1), OrElse(row.seqNo, 0), reason)
  }

  function RowsById(rows: seq<Row>): map<string, Row> {
    if |rows| == 0 then map[] else RowsById(Init(rows))[Last(rows).id := Last(rows)]
  }

  function TuplesById(rows: seq<Row>): map<string, StoredTuple> {
    if |rows| == 0 then map[] else TuplesById(Init(rows))[Last(rows).id := TupleOf(Last(rows))]
  }

  function EntriesById(entries: seq<Entry>): map<string, Entry> {
    if |entries| == 0 then map[] else EntriesById(Init(entries))[Last(entries).id := Last(entries)]
  }

  function PinnedBy(manifest: Option<Manifest>): map<string, Entry> {
    if manifest.Some? then EntriesById(manifest.value.body.entries) else map[]
  }

  // ---------- the three buckets ----------

  /** The live tuple and the live reason are the pinned ones. */
  predicate Documented(b: Break, pinned: map<string, Entry>, stored: map<string, StoredTuple>) {
    b.id in pinned && b.id in stored && stored[b.id] == PinnedTuple(pinned[b.id]) &&
    pinned[b.id].reason == b.reason && b.reason != ChainFork
  }

  datatype Buckets = Buckets(documented: seq<Break>, tampers: seq<Break>, forks: seq<Break>)

  function Sorted3(breaks: seq<Break>, pinned: map<string, Entry>, stored: map<string, StoredTuple>): Buckets {
    if |breaks| == 0 then Buckets([], [], [])
    else
      var r, b := Sorted3(Init(breaks), pinned, stored), Last(breaks);
      if b.reason == ChainFork then r.(forks := r.forks + [b])
      else if Documented(b, pinned, stored) then r.(documented := r.documented + [b])
      else r.(tampers := r.tampers + [b])
  }

  datatype Classified = Classified(verified: bool, buckets: Buckets)

  function Classification(breaks: seq<Break>, manifest: Option<Manifest>, stored: map<string, StoredTuple>): Classified {
    var r := Sorted3(breaks, PinnedBy(manifest), stored);
    Classified(r.tampers == [] && r.forks == [], r)
  }

  method ClassifyChainBreaks(breaks: seq<Break>, manifest: Option<Manifest>, rowsById: map<string, StoredTuple>)
    returns (result: Classified)
    ensures result == Classification(breaks, manifest, rowsById)
  {
    var manifestById: map<string, Entry> := map[];
    if manifest.Some? {
      var entries := manifest.value.body.entries;
      for i := 0 to |entries|
        invariant manifestById == EntriesById(entries[..i])
      {
        TakeSnoc(entries, i);
        assert Init(entries[..i + 1]) == entries[..i];
        manifestById := manifestById[entries[i].id := entries[i]];
      }
      assert entries[..|entries|] == entries;
    }
    var documentedExceptions: seq<Break> := [];
    var tamperSignatures: seq<Break> := [];
    var chainForks: seq<Break> := [];
    for i := 0 to |breaks|
      invariant Buckets(documentedExceptions, tamperSignatures, chainForks) == Sorted3(breaks[..i], manifestById, rowsById)
    {
      var brk := breaks[i];
      TakeSnoc(breaks, i);
      assert Init(breaks[..i + 1]) == breaks[..i];
      if brk.reason == ChainFork {
        chainForks := chainForks + [brk];
        continue;
      }
      var isDocumented := false;
      if brk.id in manifestById && brk.id in rowsById {
        var entry, stored := manifestById[brk.id], rowsById[brk.id];
        isDocumented := stored.entryHash == entry.entryHash && stored.prevEntryHash == entry.prevEntryHash &&
                        stored.hashVersion == entry.hashVersion && stored.seqNo == entry.seqNo &&
                        entry.reason == brk.reason &&
                        entry.reason in {EntryHashMismatch, PrevLinkMismatch, PrevLinkAndEntryHashMismatch};
      }
      if isDocumented {
        documentedExceptions := documentedExceptions + [brk];
      } else {
        tamperSignatures := tamperSignatures + [brk];
      }
    }
    assert breaks[..|breaks|] == breaks;
    result := Classified(|tamperSignatures| == 0 && |chainForks| == 0,
                         Buckets(documentedExceptions, tamperSignatures, chainForks));
  }

  /** at lists, in increasing order, the positions in ys of the elements of xs. */
  ghost predicate Picks(xs: seq<Break>, ys: seq<Break>, at: seq<int>) {
    |at| == |xs| &&
    (forall i: nat :: i < |xs| ==> 0 <= at[i] < |ys| && xs[i] == ys[at[i]]) &&
    (forall i: nat, j: nat :: i < j < |at| ==> at[i] < at[j])
  }

  /** xs is ys with some elements left out. */
  ghost predicate Subsequence(xs: seq<Break>, ys: seq<Break>) {
    exists at: seq<int> :: Picks(xs, ys, at)
  }

  lemma SubsequenceSkips(xs: seq<Break>, ys: seq<Break>, b: Break)
    requires Subsequence(xs, ys)
    ensures Subsequence(xs, ys + [b])
  {
    var at: seq<int> :| Picks(xs, ys, at);
    assert Picks(xs, ys + [b], at);
  }

  lemma SubsequenceTakes(xs: seq<Break>, ys: seq<Break>, b: Break)
    requires Subsequence(xs, ys)
    ensures Subsequence(xs + [b], ys + [b])
  {
    var at: seq<int> :| Picks(xs, ys, at);
    var more: seq<int> := at + [|ys|];
    assert Picks(xs + [b], ys + [b], more);
  }

  /** Each bucket keeps the order the breaks came in. */
  lemma {:induction false} BucketsKeepOrder(breaks: seq<Break>, pinned: map<string, Entry>, stored: map<string, StoredTuple>)
    ensures var r := Sorted3(breaks, pinned, stored);
            Subsequence(r.documented, breaks) && Subsequence(r.tampers, breaks) && Subsequence(r.forks, breaks)
  {
    if |breaks| == 0 {
      assert Picks([], breaks, []);
    } else {
      var before, b := Init(breaks), Last(breaks);
      var r := Sorted3(before, pinned, stored);
      BucketsKeepOrder(before, pinned, stored);
      SubsequenceSkips(r.documented, before, b);
      SubsequenceSkips(r.tampers, before, b);
      SubsequenceSkips(r.forks, before, b);
      SubsequenceTakes(r.documented, before, b);
      SubsequenceTakes(r.tampers, before, b);
      SubsequenceTakes(r.forks, before, b);
      assert breaks == before + [b];
    }
  }

  lemma OneMoreAmongThree(xs: seq<Break>, ys: seq<Break>, zs: seq<Break>, b: Break)
    ensures var all := multiset(xs) + multiset(ys) + multiset(zs) + multiset{b};
            multiset(xs + [b]) + multiset(ys) + multiset(zs) == all &&
            multiset(xs) + multiset(ys + [b]) + multiset(zs) == all &&
            multiset(xs) + multiset(ys) + multiset(zs + [b]) == all
  {
  }

  /** Together the buckets hold every break once. */
  lemma {:induction false} BucketsPartition(breaks: seq<Break>, pinned: map<string, Entry>, stored: map<string, StoredTuple>)
    ensures var r := Sorted3(breaks, pinned, stored);
            multiset(r.documented) + multiset(r.tampers) + multiset(r.forks) == multiset(breaks)
  {
    hide Documented;
    if |breaks| > 0 {
      BucketsPartition(Init(breaks), pinned, stored);
      var r := Sorted3(Init(breaks), pinned, stored);
      OneMoreAmongThree(r.documented, r.tampers, r.forks, Last(breaks));
      assert breaks == Init(breaks) + [Last(breaks)];
    }
  }

  /** Which break is in which bucket. */
  lemma {:induction false} BucketOf(breaks: seq<Break>, pinned: map<string, Entry>, stored: map<string, StoredTuple>, b: Break)
    ensures var r := Sorted3(breaks, pinned, stored);
            (b in r.documented <==> b in breaks && Documented(b, pinned, stored)) &&
            (b in r.tampers <==> b in breaks && b.reason != ChainFork && !Documented(b, pinned, stored)) &&
            (b in r.forks <==> b in breaks && b.reason == ChainFork)
  {
    if |breaks| > 0 {
      BucketOf(Init(breaks), pinned, stored, b);
      assert b in breaks <==> b in Init(breaks) || b == Last(breaks);
    }
  }

  lemma {:induction false} EntriesByIdMember(entries: seq<Entry>, id: string)
    ensures id in EntriesById(entries) <==> exists e :: e in entries && e.id == id
    ensures id in EntriesById(entries) ==> EntriesById(entries)[id] in entries && EntriesById(entries)[id].id == id
  {
    if |entries| > 0 {
      EntriesByIdMember(Init(entries), id);
      assert forall e :: e in entries <==> e in Init(entries) || e == Last(entries);
    }
  }

  /** Entry k is the last one of the manifest with this id. */
  ghost predicate LastPin(entries: seq<Entry>, k: nat, id: string) {
    k < |entries| && entries[k].id == id && forall j: nat :: k < j < |entries| ==> entries[j].id != id
  }

  /** Row k is the last one of the store with this id. */
  ghost predicate LastRow(rows: seq<Row>, k: nat, id: string) {
    k < |rows| && rows[k].id == id && forall j: nat :: k < j < |rows| ==> rows[j].id != id
  }

  /** The entry has the row's columns, an absent version read as 1 and an absent write number as 0. */
  predicate PinsColumns(e: Entry, row: Row) {
    e.entryHash == row.entryHash && e.prevEntryHash == row.prevEntryHash &&
    e.hashVersion == (match row.hashVersion case Some(v) => v case None => 1) &&
    e.seqNo == (match row.seqNo case Some(n) => n case None => 0)
  }

  /** Not a fork, and the last entry for its id has the columns its row has now and its own reason. */
  ghost predicate PinnedAsStored(b: Break, entries: seq<Entry>, rows: seq<Row>) {
    b.reason != ChainFork &&
    exists k: nat, n: nat :: LastPin(entries, k, b.id) && LastRow(rows, n, b.id) &&
      PinsColumns(entries[k], rows[n]) && entries[k].reason == b.reason
  }

  lemma {:induction false} EntriesByIdIsLast(entries: seq<Entry>, id: string)
    ensures id !in EntriesById(entries) ==> forall k: nat :: k < |entries| ==> entries[k].id != id
    ensures id in EntriesById(entries) ==> exists k: nat :: LastPin(entries, k, id) && entries[k] == EntriesById(entries)[id]
  {
    if |entries| > 0 {
      var n := |entries| - 1;
      EntriesByIdIsLast(entries[..n], id);
      assert Init(entries) == entries[..n];
      if entries[n].id == id {
        assert LastPin(entries, n, id);
      } else if id in EntriesById(entries) {
        var k: nat :| LastPin(entries[..n], k, id) && entries[..n][k] == EntriesById(entries[..n])[id];
        assert LastPin(entries, k, id);
      }
    }
  }

  lemma {:induction false} TuplesByIdIsLast(rows: seq<Row>, id: string)
    ensures id !in TuplesById(rows) ==> forall k: nat :: k < |rows| ==> rows[k].id != id
    ensures id in TuplesById(rows) ==> exists k: nat :: LastRow(rows, k, id) && TupleOf(rows[k]) == TuplesById(rows)[id]
  {
    if |rows| > 0 {
      var n := |rows| - 1;
      TuplesByIdIsLast(rows[..n], id);
      assert Init(rows) == rows[..n];
      if rows[n].id == id {
        assert LastRow(rows, n, id);
      } else if id in TuplesById(rows) {
        var k: nat :| LastRow(rows[..n], k, id) && TupleOf(rows[..n][k]) == TuplesById(rows[..n])[id];
        assert LastRow(rows, k, id);
      }
    }
  }

  /** What documents a break, column by column. */
  lemma DocumentedSpelledOut(b: Break, entries: seq<Entry>, rows: seq<Row>)
    ensures Documented(b, EntriesById(entries), TuplesById(rows)) <==> PinnedAsStored(b, entries, rows)
  {
    EntriesByIdIsLast(entries, b.id);
    TuplesByIdIsLast(rows, b.id);
    if b.id in EntriesById(entries) && b.id in TuplesById(rows) {
      var k: nat :| LastPin(entries, k, b.id) && entries[k] == EntriesById(entries)[b.id];
      var n: nat :| LastRow(rows, n, b.id) && TupleOf(rows[n]) == TuplesById(rows)[b.id];
      assert forall k': nat :: LastPin(entries, k', b.id) ==> k' == k;
      assert forall n': nat :: LastRow(rows, n', b.id) ==> n' == n;
      assert TupleOf(rows[n]) == PinnedTuple(entries[k]) <==> PinsColumns(entries[k], rows[n]);
    }
  }

  /**
   * Every break is in exactly one bucket, read off the manifest and the store: forks, breaks pinned as
   * stored, and the rest; and the chain counts as verified exactly when there are only pinned ones.
   */
  lemma BucketsSpelledOut(breaks: seq<Break>, m: Manifest, rows: seq<Row>, b: Break)
    ensures var r := Classification(breaks, Some(m), TuplesById(rows));
            (b in r.buckets.documented <==> b in breaks && PinnedAsStored(b, m.body.entries, rows)) &&
            (b in r.buckets.tampers <==> b in breaks && b.reason != ChainFork && !PinnedAsStored(b, m.body.entries, rows)) &&
            (b in r.buckets.forks <==> b in breaks && b.reason == ChainFork) &&
            (r.verified && b in breaks ==> PinnedAsStored(b, m.body.entries, rows)) &&
            (!r.verified <==> |r.buckets.tampers| + |r.buckets.forks| > 0)
  {
    BucketOf(breaks, EntriesById(m.body.entries), TuplesById(rows), b);
    DocumentedSpelledOut(b, m.body.entries, rows);
  }

  /** Each row is pinned at most once. */
  ghost predicate UniquePins(entries: seq<Entry>) {
    forall a, b :: a in entries && b in entries && a.id == b.id ==> a == b
  }

  /** The entry that excuses a break pins its row as the row is stored now, for the reason given now. */
  predicate Excuses(e: Entry, b: Break, stored: map<string, StoredTuple>) {
    e.id == b.id && e.reason == b.reason && b.id in stored && stored[b.id] == PinnedTuple(e)
  }

  /**
   * No laundering: a break other than a fork is a tamper signature exactly when no entry excuses it;
   * any drift of the stored tuple or of the reason makes it one.
   */
  lemma TamperUnlessExcused(breaks: seq<Break>, m: Manifest, stored: map<string, StoredTuple>, b: Break)
    requires UniquePins(m.body.entries) && b in breaks && b.reason != ChainFork
    ensures b in Classification(breaks, Some(m), stored).buckets.tampers <==>
            !exists e :: e in m.body.entries && Excuses(e, b, stored)
  {
    BucketOf(breaks, EntriesById(m.body.entries), stored, b);
    EntriesByIdMember(m.body.entries, b.id);
    if e :| e in m.body.entries && Excuses(e, b, stored) {
      assert EntriesById(m.body.entries)[b.id] == e;
    }
  }

  /** Without the uniqueness: an excused break is still excused by some entry of the manifest, so duplicates add nothing. */
  lemma DocumentedNeedsAnExcuse(breaks: seq<Break>, m: Manifest, stored: map<string, StoredTuple>, b: Break)
    requires b in Classification(breaks, Some(m), stored).buckets.documented
    ensures b in breaks && exists e :: e in m.body.entries && Excuses(e, b, stored)
  {
    BucketOf(breaks, EntriesById(m.body.entries), stored, b);
    EntriesByIdMember(m.body.entries, b.id);
    assert Excuses(EntriesById(m.body.entries)[b.id], b, stored);
  }

  // ---------- pinning ----------

  function PinnedEntries(breaks: seq<Break>, byId: map<string, Row>): seq<Entry> {
    if |breaks| == 0 then []
    else
      var b := Last(breaks);
      if b.reason == ChainFork || b.id !in byId then PinnedEntries(Init(breaks), byId)
      else PinnedEntries(Init(breaks), byId) + [Pin(byId[b.id], b.reason)]
  }

  function ManifestFor(sha: Digest, rows: seq<Row>, brainId: Option<string>, now: string): Manifest {
    var entries := PinnedEntries(Breaks(sha, rows), RowsById(rows));
    var body := Body(brainId, now, |entries|, entries);
    Manifest(body, ComputeManifestHash(sha, body))
  }

  method GenerateManifest(sha: Digest, rows: seq<Row>, brainId: Option<string>, now: string) returns (manifest: Manifest)
    ensures manifest == ManifestFor(sha, rows, brainId, now)
    ensures manifest.body.brainId == brainId && manifest.body.generatedAt == now
    ensures manifest.body.entryCount == |manifest.body.entries| && manifest.manifestHash == sha(ManifestBodyJson(manifest.body))
  {
    var result := VerifyAuditChain(sha, rows);
    var byId: map<string, Row> := map[];
    for i := 0 to |rows|
      invariant byId == RowsById(rows[..i])
    {
      TakeSnoc(rows, i);
      assert Init(rows[..i + 1]) == rows[..i];
      byId := byId[rows[i].id := rows[i]];
    }
    assert rows[..|rows|] == rows;
    var entries: seq<Entry> := [];
    var breaks := result.breaks;
    for i := 0 to |breaks|
      invariant entries == PinnedEntries(breaks[..i], byId)
    {
      var brk := breaks[i];
      TakeSnoc(breaks, i);
      assert Init(breaks[..i + 1]) == breaks[..i];
      if brk.reason == ChainFork {
        continue;
      }
      if brk.id !in byId {
        continue;
      }
      var row := byId[brk.id];
      entries := entries + [Entry(row.id, row.entryHash, row.prevEntryHash,
                                  if row.hashVersion.Some? then row.hashVersion.value else 1,
                                  if row.seqNo.Some? then row.seqNo.value else 0, brk.reason)];
    }
    assert breaks[..|breaks|] == breaks;
    var body := Body(brainId, now, |entries|, entries);
    manifest := Manifest(body, ComputeManifestHash(sha, body));
  }

  // ---------- the round trip ----------

  /** Row ids are the primary key: no two rows share one. */
  ghost predicate DistinctIds(rows: seq<Row>) {
    forall i: nat, j: nat :: i < j < |rows| ==> rows[i].id != rows[j].id
  }

  ghost predicate DistinctBreakIds(breaks: seq<Break>) {
    forall i: nat, j: nat :: i < j < |breaks| ==> breaks[i].id != breaks[j].id
  }

  lemma {:induction false} RowsByIdMember(rows: seq<Row>, id: string)
    ensures id in RowsById(rows) <==> exists r :: r in rows && r.id == id
    ensures id in RowsById(rows) ==> RowsById(rows)[id] in rows && RowsById(rows)[id].id == id
    ensures id in TuplesById(rows) <==> id in RowsById(rows)
    ensures id in RowsById(rows) ==> TuplesById(rows)[id] == TupleOf(RowsById(rows)[id])
  {
    if |rows| > 0 {
      RowsByIdMember(Init(rows), id);
      assert forall r :: r in rows <==> r in Init(rows) || r == Last(rows);
    }
  }

  /** Every break names a row. */
  lemma {:induction false} BreaksNameRows(sha: Digest, rows: seq<Row>, b: Break)
    requires b in Breaks(sha, rows)
    ensures exists r :: r in rows && r.id == b.id
  {
    var before, row := Init(rows), Last(rows);
    if b in Breaks(sha, before) {
      BreaksNameRows(sha, before, b);
      var r :| r in before && r.id == b.id;
      assert r in rows;
    } else {
      assert row in rows && row.id == b.id;
    }
  }

  lemma {:induction false} BreakIdsDistinct(sha: Digest, rows: seq<Row>)
    requires DistinctIds(rows)
    ensures DistinctBreakIds(Breaks(sha, rows))
  {
    if |rows| > 0 {
      var before, row := Init(rows), Last(rows);
      BreakIdsDistinct(sha, before);
      forall b | b in Breaks(sha, before)
        ensures b.id != row.id
      {
        BreaksNameRows(sha, before, b);
      }
    }
  }

  /** Every break but the forks is pinned, by its own row and reason. */
  lemma {:induction false} PinsCover(breaks: seq<Break>, byId: map<string, Row>, b: Break)
    requires DistinctBreakIds(breaks) && b in breaks && b.reason != ChainFork
    requires b.id in byId && forall id :: id in byId ==> byId[id].id == id
    ensures b.id in EntriesById(PinnedEntries(breaks, byId))
    ensures EntriesById(PinnedEntries(breaks, byId))[b.id] == Pin(byId[b.id], b.reason)
  {
    var before, last := Init(breaks), Last(breaks);
    if b == last {
      assert Init(PinnedEntries(breaks, byId)) == PinnedEntries(before, byId);
    } else {
      assert last.id != b.id;
      PinsCover(before, byId, b);
      assert last.reason != ChainFork && last.id in byId ==> Init(PinnedEntries(breaks, byId)) == PinnedEntries(before, byId);
    }
  }

  /** What is pinned: the columns and the reason of each row the walk breaks at, forks apart; nothing else. */
  lemma PinsSpelledOut(sha: Digest, rows: seq<Row>, e: Entry)
    requires DistinctIds(rows)
    ensures e in PinnedEntries(Breaks(sha, rows), RowsById(rows)) <==>
            e.reason != ChainFork &&
            exists b, row :: b in Breaks(sha, rows) && row in rows && b.id == row.id == e.id && b.reason == e.reason && PinsColumns(e, row)
  {
    var breaks, byId := Breaks(sha, rows), RowsById(rows);
    PinnedRowsKeepIds(rows);
    BreakIdsDistinct(sha, rows);
    RowsByIdMember(rows, e.id);
    if e in PinnedEntries(breaks, byId) {
      PinsStemFromBreaks(breaks, byId, e);
      assert PinsColumns(e, byId[e.id]);
    }
    if b, row :| b in breaks && row in rows && b.id == row.id == e.id && b.reason == e.reason && e.reason != ChainFork && PinsColumns(e, row) {
      SameIdSameRow(rows, byId[e.id], row);
      PinsCover(breaks, byId, b);
      EntriesByIdMember(PinnedEntries(breaks, byId), e.id);
    }
  }

  lemma SameIdSameRow(rows: seq<Row>, a: Row, b: Row)
    requires DistinctIds(rows) && a in rows && b in rows && a.id == b.id
    ensures a == b
  {
    var i: nat :| i < |rows| && rows[i] == a;
    var j: nat :| j < |rows| && rows[j] == b;
    SameIdSamePlace(rows, i, j);
  }

  lemma SameIdSamePlace(rows: seq<Row>, i: nat, j: nat)
    requires DistinctIds(rows) && i < |rows| && j < |rows| && rows[i].id == rows[j].id
    ensures i == j
  {
  }

  lemma {:induction false} PinsAreTampers(breaks: seq<Break>, byId: map<string, Row>)
    ensures OnlyTamperReasons(PinnedEntries(breaks, byId))
  {
    if |breaks| > 0 {
      PinsAreTampers(Init(breaks), byId);
    }
  }

  /** What the pins of one store excuse in another whose rows are stored alike: the same id broken for the same reason. */
  lemma PinsExcuse(sha: Digest, rows: seq<Row>, b: Break)
    requires DistinctIds(rows) && b in Breaks(sha, rows) && b.reason != ChainFork
    ensures Documented(b, EntriesById(PinnedEntries(Breaks(sha, rows), RowsById(rows))), TuplesById(rows))
  {
    BreakIdsDistinct(sha, rows);
    BreaksNameRows(sha, rows, b);
    RowsByIdMember(rows, b.id);
    forall id | id in RowsById(rows)
      ensures RowsById(rows)[id].id == id
    {
      RowsByIdMember(rows, id);
    }
    PinsCover(Breaks(sha, rows), RowsById(rows), b);
  }

  /** A manifest generated from any store is accepted, and classifies that store with no tamper signature. */
  lemma GeneratedManifestRoundTrip(sha: Digest, rows: seq<Row>, brainId: Option<string>, now: string)
    requires DistinctIds(rows)
    ensures var m := ManifestFor(sha, rows, brainId, now);
            ReadManifest(sha, Some(ManifestValue(m))) == Ok(m) &&
            Classification(Breaks(sha, rows), Some(m), TuplesById(rows)).buckets.tampers == []
  {
    var m := ManifestFor(sha, rows, brainId, now);
    PinsAreTampers(Breaks(sha, rows), RowsById(rows));
    ReadBackIff(sha, m);
    var r := Classification(Breaks(sha, rows), Some(m), TuplesById(rows)).buckets;
    if |r.tampers| > 0 {
      var b := r.tampers[0];
      BucketOf(Breaks(sha, rows), PinnedBy(Some(m)), TuplesById(rows), b);
      PinsExcuse(sha, rows, b);
    }
  }

  // ---------- what the pins do not see ----------

  /** Every row stored as before: id, hash columns, version and sequence number; content may differ. */
  ghost predicate StoredAlike(rows: seq<Row>, edited: seq<Row>) {
    |rows| == |edited| &&
    forall i: nat :: i < |rows| ==> rows[i].id == edited[i].id && TupleOf(rows[i]) == TupleOf(edited[i])
  }

  lemma {:induction false} AlikeTuples(rows: seq<Row>, edited: seq<Row>)
    requires StoredAlike(rows, edited)
    ensures TuplesById(rows) == TuplesById(edited)
  {
    if |rows| > 0 {
      var n := |rows| - 1;
      assert Init(rows) == rows[..n] && Init(edited) == edited[..n];
      AlikeTuples(rows[..n], edited[..n]);
    }
  }

  /** Every pin stems from a break of the store, and pins the row that break names. */
  lemma {:induction false} PinsStemFromBreaks(breaks: seq<Break>, byId: map<string, Row>, e: Entry)
    requires e in PinnedEntries(breaks, byId) && forall id :: id in byId ==> byId[id].id == id
    ensures exists b :: b in breaks && b.id == e.id && b.reason == e.reason && b.reason != ChainFork
    ensures e.id in byId && e == Pin(byId[e.id], e.reason)
  {
    var before, last := Init(breaks), Last(breaks);
    if e in PinnedEntries(before, byId) {
      PinsStemFromBreaks(before, byId, e);
      var b :| b in before && b.id == e.id && b.reason == e.reason && b.reason != ChainFork;
      assert b in breaks;
    } else {
      assert last in breaks && e == Pin(byId[last.id], last.reason);
    }
  }

  ghost predicate WasBrokenAlike(sha: Digest, rows: seq<Row>, b: Break) {
    exists was :: was in Breaks(sha, rows) && was.id == b.id && was.reason == b.reason
  }

  lemma PinnedRowsKeepIds(rows: seq<Row>)
    ensures forall id :: id in RowsById(rows) ==> RowsById(rows)[id].id == id
  {
    forall id | id in RowsById(rows)
      ensures RowsById(rows)[id].id == id
    {
      RowsByIdMember(rows, id);
    }
  }

  /**
   * Edits that leave the stored columns alone: a break of the edited store is excused exactly when
   * the same row was already broken, for the same reason, when the manifest was generated. So the
   * content of a documented row can be edited again without its break becoming a tamper signature.
   */
  lemma ContentEditsAreExcusedIff(sha: Digest, rows: seq<Row>, edited: seq<Row>, brainId: Option<string>, now: string, b: Break)
    requires DistinctIds(rows) && StoredAlike(rows, edited) && b in Breaks(sha, edited) && b.reason != ChainFork
    ensures var m := ManifestFor(sha, rows, brainId, now);
            b in Classification(Breaks(sha, edited), Some(m), TuplesById(edited)).buckets.documented <==>
            WasBrokenAlike(sha, rows, b)
  {
    var m := ManifestFor(sha, rows, brainId, now);
    var pinned := PinnedBy(Some(m));
    AlikeTuples(rows, edited);
    PinnedRowsKeepIds(rows);
    BucketOf(Breaks(sha, edited), pinned, TuplesById(edited), b);
    if b.id in pinned {
      EntriesByIdMember(m.body.entries, b.id);
      PinsStemFromBreaks(Breaks(sha, rows), RowsById(rows), pinned[b.id]);
    }
    if was :| was in Breaks(sha, rows) && was.id == b.id && was.reason == b.reason {
      PinsExcuse(sha, rows, was);
    }
  }

  /** A one-row store whose row has a wrong stored hash, and the row as edited afterwards. */
  function Wronged(content: string): Row {
    Row("r", "a", "m", "t", "{}", None, content, "2026-01-01", Some("wrong"), None, Some(2), Some(1))
  }

  /** The documentation's promise that re-touching a documented row makes it a tamper signature fails here. */
  lemma RetouchedRowStaysDocumented(sha: Digest, before: string, after: string)
    requires !Intact(sha, Wronged(before)) && !Intact(sha, Wronged(after))
    ensures var m := ManifestFor(sha, [Wronged(before)], None, "");
            var r := Classification(Breaks(sha, [Wronged(after)]), Some(m), TuplesById([Wronged(after)])).buckets;
            r.tampers == [] && |r.documented| == 1
  {
    var rows, edited := [Wronged(before)], [Wronged(after)];
    var was := BreakOf(sha, 0, None, rows[0], EntryHashMismatch);
    var b := BreakOf(sha, 0, None, edited[0], EntryHashMismatch);
    assert Init(rows) == [] && Init(edited) == [];
    assert Breaks(sha, rows) == [was] && Breaks(sha, edited) == [b];
    assert was in Breaks(sha, rows);
    ContentEditsAreExcusedIff(sha, rows, edited, None, "", b);
    BucketOf([b], PinnedBy(Some(ManifestFor(sha, rows, None, ""))), TuplesById(edited), b);
    assert Init([b]) == [];
  }
}
