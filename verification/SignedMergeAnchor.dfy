/** Signed merge anchors: the merged head bound to its two parents (packages/store/src/signed-merge-anchor.ts). */
module SignedMergeAnchor {
  import opened Prelude
  import opened HashLinks
  import opened AuditChain
  import opened AuditVerify
  import opened AuditAnchor
  import opened Sorting
  import Json

  /** SHA-256 and Ed25519 as arbitrary functions: digest, signature, check, public half of a key. */
  datatype Crypto = Crypto(
    sha: Digest,
    sign: (string, string) -> string,
    check: (string, string, string) -> bool,
    publicKey: string -> string)

  /** A signature made with a key checks under the key's public half. */
  ghost predicate SignaturesCheck(c: Crypto) {
    forall text, key :: c.check(text, c.publicKey(key), c.sign(text, key))
  }

  datatype MergeBody = MergeBody(
    schemaVersion: int,
    anchoredAt: string,
    tenantId: string,
    chainedRows: int,
    chainHead: string,
    parents: seq<string>,
    commitHash: Option<string>,
    lamportClock: int,
    prevAnchorHash: Option<string>,
    signerPublicKey: string)

  datatype MergeRecord = MergeRecord(body: MergeBody, signature: string, anchorHash: string)

  function SortStrings(xs: seq<string>): seq<string> {
    Sort(xs, StringLe)
  }

  function Strs(xs: seq<string>): seq<Json.Value> {
    if |xs| == 0 then [] else Strs(Init(xs)) + [Json.Str(Last(xs))]
  }

  function MergeBodyValue(b: MergeBody): Json.Value {
    Json.Obj([
      Json.Field("schemaVersion", Json.Num(b.schemaVersion)),
      Json.Field("anchoredAt", Json.Str(b.anchoredAt)),
      Json.Field("tenantId", Json.Str(b.tenantId)),
      Json.Field("chainedRows", Json.Num(b.chainedRows)),
      Json.Field("chainHead", Json.Str(b.chainHead)),
      Json.Field("parents", Json.Arr(Strs(SortStrings(b.parents)))),
      Json.Field("commitHash", Nullable(b.commitHash)),
      Json.Field("lamportClock", Json.Num(b.lamportClock)),
      Json.Field("prevAnchorHash", Nullable(b.prevAnchorHash)),
      Json.Field("signerPublicKey", Json.Str(b.signerPublicKey))])
  }

  function MergeBodyJson(b: MergeBody): string {
    Json.Print(MergeBodyValue(b))
  }

  function ComputeMergeHash(c: Crypto, b: MergeBody): string {
    c.sha(MergeBodyJson(b))
  }

  predicate SignatureVerifies(c: Crypto, r: MergeRecord) {
    c.check(MergeBodyJson(r.body), r.body.signerPublicKey, r.signature)
  }

  // ---------- parents are a set, not a tuple ----------

  /** Order-independent equality of string lists. */
  predicate SameSet(a: seq<string>, b: seq<string>) {
    |a| == |b| && SortStrings(a) == SortStrings(b)
  }

  /** It is multiset equality: repetitions count, order does not. */
  lemma SameSetIsMultisetEquality(a: seq<string>, b: seq<string>)
    ensures SameSet(a, b) <==> multiset(a) == multiset(b)
  {
    StringOrder();
    SortMultiset(a, StringLe);
    SortMultiset(b, StringLe);
    if multiset(a) == multiset(b) {
      assert |multiset(a)| == |a| && |multiset(b)| == |b|;
      SortIgnoresOrder(a, b, StringLe);
    }
  }

  lemma {:induction false} StrsInjective(xs: seq<string>, ys: seq<string>)
    requires Strs(xs) == Strs(ys)
    ensures xs == ys
  {
    StrsLength(xs);
    StrsLength(ys);
    if |xs| > 0 {
      var a, b := Strs(xs), Strs(ys);
      assert Init(a) == Strs(Init(xs)) && Init(b) == Strs(Init(ys));
      StrsInjective(Init(xs), Init(ys));
      assert Last(a) == Last(b);
      assert xs == Init(xs) + [Last(xs)] && ys == Init(ys) + [Last(ys)];
    }
  }

  lemma {:induction false} StrsLength(xs: seq<string>)
    ensures |Strs(xs)| == |xs|
  {
    if |xs| > 0 {
      StrsLength(Init(xs));
    }
  }

  /** Equality of everything but the order of the parents. */
  predicate SameUpToParentOrder(a: MergeBody, b: MergeBody) {
    a.(parents := []) == b.(parents := []) && multiset(a.parents) == multiset(b.parents)
  }

  lemma MergeBodyValueInjective(a: MergeBody, b: MergeBody)
    requires MergeBodyValue(a) == MergeBodyValue(b)
    ensures a.(parents := []) == b.(parents := []) && SortStrings(a.parents) == SortStrings(b.parents)
  {
    var x, y := MergeBodyValue(a).fields, MergeBodyValue(b).fields;
    assert x[0] == y[0] && x[1] == y[1] && x[2] == y[2] && x[3] == y[3] && x[4] == y[4];
    assert x[5] == y[5] && x[6] == y[6] && x[7] == y[7] && x[8] == y[8] && x[9] == y[9];
    StrsInjective(SortStrings(a.parents), SortStrings(b.parents));
  }

  /** The signable text is one and the same for both orders of the clones, and otherwise injective. */
  lemma MergeBodyJsonCanonical(a: MergeBody, b: MergeBody)
    ensures MergeBodyJson(a) == MergeBodyJson(b) <==> SameUpToParentOrder(a, b)
  {
    SameSetIsMultisetEquality(a.parents, b.parents);
    if MergeBodyJson(a) == MergeBodyJson(b) {
      Json.PrintInjective(MergeBodyValue(a), MergeBodyValue(b));
      MergeBodyValueInjective(a, b);
      SortMultiset(a.parents, StringLe);
      SortMultiset(b.parents, StringLe);
    }
    if SameUpToParentOrder(a, b) {
      assert MergeBodyValue(a) == MergeBodyValue(b);
    }
  }

  // ---------- appending ----------

  datatype AppendOptions = AppendOptions(
    tenantId: string, parents: seq<string>, commitHash: Option<string>, privateKey: string, anchoredAt: string)

  function MergeTip(log: seq<MergeRecord>): Option<string> {
    if |log| == 0 then None else Some(Last(log).anchorHash)
  }

  /** The record an append writes: the head it saw, the clock it was given, the tip of the log. */
  function NewMergeRecord(c: Crypto, snap: Snapshot, log: seq<MergeRecord>, clock: int, o: AppendOptions): MergeRecord {
    var body := MergeBody(2, o.anchoredAt, o.tenantId, snap.count, snap.head, o.parents, o.commitHash,
                          clock, MergeTip(log), c.publicKey(o.privateKey));
    MergeRecord(body, c.sign(MergeBodyJson(body), o.privateKey), ComputeMergeHash(c, body))
  }

  class MergeAnchorLog {
    const crypto: Crypto
    var records: seq<MergeRecord>

    constructor (crypto: Crypto)
      ensures this.crypto == crypto && records == []
    {
      this.crypto := crypto;
      records := [];
    }

    method AppendSignedMergeAnchor(rows: seq<Row>, lamportClock: int, o: AppendOptions) returns (record: MergeRecord)
      modifies this
      ensures records == old(records) + [record]
      ensures record == NewMergeRecord(crypto, SnapshotOf(rows), old(records), lamportClock, o)
      ensures SignaturesCheck(crypto) ==> SignatureVerifies(crypto, record)
    {
      var hashed := Hashed(rows);
      var head := HeadOf(hashed);
      var prevAnchorHash := if |records| > 0 then Some(records[|records| - 1].anchorHash) else None;
      var body := MergeBody(2, o.anchoredAt, o.tenantId, |hashed|, head, o.parents, o.commitHash,
                            lamportClock, prevAnchorHash, crypto.publicKey(o.privateKey));
      var signature := crypto.sign(MergeBodyJson(body), o.privateKey);
      record := MergeRecord(body, signature, ComputeMergeHash(crypto, body));
      records := records + [record];
    }
  }

  // ---------- verifying ----------

  datatype MergeReason =
    | MergeHashMismatch
    | MergeSignatureInvalid
    | MergeLinkMismatch
    | MergeHistory(finding: AnchorReason)
    | MergeParentMismatch

  datatype MergeBreak = MergeBreak(index: nat, anchoredAt: string, reason: MergeReason)

  datatype MergeVerifyResult = MergeVerifyResult(anchorCount: nat, breaks: seq<MergeBreak>, ok: bool)

  function FoundMerge(bad: bool, i: nat, a: MergeRecord, reason: MergeReason): seq<MergeBreak> {
    if bad then [MergeBreak(i, a.body.anchoredAt, reason)] else []
  }

  function MergeHistoryBreak(hashed: seq<Row>, i: nat, a: MergeRecord): seq<MergeBreak> {
    match HeadFinding(hashed, a.body.chainedRows, a.body.chainHead)
    case None => []
    case Some(f) => [MergeBreak(i, a.body.anchoredAt, MergeHistory(f))]
  }

  function MergeBreaks(c: Crypto, hashed: seq<Row>, log: seq<MergeRecord>): seq<MergeBreak> {
    if |log| == 0 then []
    else
      var i, a := |log| - 1, Last(log);
      MergeBreaks(c, hashed, Init(log)) +
      FoundMerge(ComputeMergeHash(c, a.body) != a.anchorHash, i, a, MergeHashMismatch) +
      FoundMerge(!SignatureVerifies(c, a), i, a, MergeSignatureInvalid) +
      FoundMerge(a.body.prevAnchorHash != MergeTip(Init(log)), i, a, MergeLinkMismatch) +
      MergeHistoryBreak(hashed, i, a)
  }

  function ParentBreaks(log: seq<MergeRecord>, expectedParents: Option<seq<string>>): seq<MergeBreak> {
    if expectedParents.Some? && |log| > 0 && !SameSet(Last(log).body.parents, expectedParents.value)
      then [MergeBreak(|log| - 1, Last(log).body.anchoredAt, MergeParentMismatch)] else []
  }

  function MergeReport(c: Crypto, rows: seq<Row>, log: seq<MergeRecord>, expectedParents: Option<seq<string>>): MergeVerifyResult {
    var breaks := MergeBreaks(c, Hashed(rows), log) + ParentBreaks(log, expectedParents);
    MergeVerifyResult(|log|, breaks, breaks == [])
  }

  method VerifySignedMergeAnchors(c: Crypto, rows: seq<Row>, anchors: seq<MergeRecord>, expectedParents: Option<seq<string>>)
    returns (result: MergeVerifyResult)
    ensures result == MergeReport(c, rows, anchors, expectedParents)
  {
    var hashed := Hashed(rows);
    var breaks: seq<MergeBreak> := [];
    var expectedPrev: Option<string> := None;
    for i := 0 to |anchors|
      invariant expectedPrev == MergeTip(anchors[..i])
      invariant breaks == MergeBreaks(c, hashed, anchors[..i])
    {
      var a := anchors[i];
      MergeBreaksStep(c, hashed, anchors, i);
      ghost var b0 := breaks;
      if ComputeMergeHash(c, a.body) != a.anchorHash {
        breaks := breaks + [MergeBreak(i, a.body.anchoredAt, MergeHashMismatch)];
      }
      assert breaks == b0 + FoundMerge(ComputeMergeHash(c, a.body) != a.anchorHash, i, a, MergeHashMismatch);
      ghost var b1 := breaks;
      if !SignatureVerifies(c, a) {
        breaks := breaks + [MergeBreak(i, a.body.anchoredAt, MergeSignatureInvalid)];
      }
      assert breaks == b1 + FoundMerge(!SignatureVerifies(c, a), i, a, MergeSignatureInvalid);
      ghost var b2 := breaks;
      if a.body.prevAnchorHash != expectedPrev {
        breaks := breaks + [MergeBreak(i, a.body.anchoredAt, MergeLinkMismatch)];
      }
      assert breaks == b2 + FoundMerge(a.body.prevAnchorHash != expectedPrev, i, a, MergeLinkMismatch);
      ghost var b3 := breaks;
      if |hashed| < a.body.chainedRows {
        breaks := breaks + [MergeBreak(i, a.body.anchoredAt, MergeHistory(HistoryTruncated))];
      } else if a.body.chainedRows > 0 {
        var actualHead := hashed[a.body.chainedRows - 1].entryHash;
        if actualHead != Some(a.body.chainHead) {
          breaks := breaks + [MergeBreak(i, a.body.anchoredAt, MergeHistory(HistoryRewritten))];
        }
      }
      assert breaks == b3 + MergeHistoryBreak(hashed, i, a);
      expectedPrev := Some(a.anchorHash);
    }
    assert anchors[..|anchors|] == anchors;
    if expectedParents.Some? && |anchors| > 0 {
      var last := anchors[|anchors| - 1];
      if !SameSet(last.body.parents, expectedParents.value) {
        breaks := breaks + [MergeBreak(|anchors| - 1, last.body.anchoredAt, MergeParentMismatch)];
      }
    }
    result := MergeVerifyResult(|anchors|, breaks, |breaks| == 0);
  }

  lemma MergeBreaksStep(c: Crypto, hashed: seq<Row>, log: seq<MergeRecord>, i: nat)
    requires i < |log|
    ensures MergeTip(log[..i + 1]) == Some(log[i].anchorHash)
    ensures MergeBreaks(c, hashed, log[..i + 1]) ==
            MergeBreaks(c, hashed, log[..i]) +
            FoundMerge(ComputeMergeHash(c, log[i].body) != log[i].anchorHash, i, log[i], MergeHashMismatch) +
            FoundMerge(!SignatureVerifies(c, log[i]), i, log[i], MergeSignatureInvalid) +
            FoundMerge(log[i].body.prevAnchorHash != MergeTip(log[..i]), i, log[i], MergeLinkMismatch) +
            MergeHistoryBreak(hashed, i, log[i])
  {
    assert Init(log[..i + 1]) == log[..i];
  }

  /** Record i passes every check. */
  ghost predicate MergeRecordOk(c: Crypto, hashed: seq<Row>, log: seq<MergeRecord>, i: nat)
    requires i < |log|
  {
    var a := log[i];
    ComputeMergeHash(c, a.body) == a.anchorHash && SignatureVerifies(c, a) &&
    a.body.prevAnchorHash == MergeTip(log[..i]) && HeadFinding(hashed, a.body.chainedRows, a.body.chainHead) == None
  }

  ghost predicate MergeLogOk(c: Crypto, hashed: seq<Row>, log: seq<MergeRecord>) {
    forall i: nat :: i < |log| ==> MergeRecordOk(c, hashed, log, i)
  }

  lemma MergeLogOkSnoc(c: Crypto, hashed: seq<Row>, log: seq<MergeRecord>, a: MergeRecord)
    ensures MergeLogOk(c, hashed, log + [a]) <==>
            MergeLogOk(c, hashed, log) && ComputeMergeHash(c, a.body) == a.anchorHash && SignatureVerifies(c, a) &&
            a.body.prevAnchorHash == MergeTip(log) && HeadFinding(hashed, a.body.chainedRows, a.body.chainHead) == None
  {
    var longer, n := log + [a], |log|;
    assert forall i: nat :: i <= n ==> longer[..i] == log[..i];
    assert log[..n] == log;
    assert forall i: nat :: i < n ==> MergeRecordOk(c, hashed, longer, i) == MergeRecordOk(c, hashed, log, i);
    assert MergeRecordOk(c, hashed, longer, n) ==
           (ComputeMergeHash(c, a.body) == a.anchorHash && SignatureVerifies(c, a) &&
            a.body.prevAnchorHash == MergeTip(log) && HeadFinding(hashed, a.body.chainedRows, a.body.chainHead) == None);
  }

  /** No break is reported exactly when every record passes. */
  lemma {:induction false} NoMergeBreaksIffLogOk(c: Crypto, hashed: seq<Row>, log: seq<MergeRecord>)
    ensures MergeBreaks(c, hashed, log) == [] <==> MergeLogOk(c, hashed, log)
  {
    if |log| > 0 {
      NoMergeBreaksIffLogOk(c, hashed, Init(log));
      MergeLogOkSnoc(c, hashed, Init(log), Last(log));
      assert log == Init(log) + [Last(log)];
    }
  }
}
