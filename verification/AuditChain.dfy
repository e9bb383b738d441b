/** The frozen canonical row bodies and the entry hash (packages/store/src/audit-chain.ts). */
module AuditChain {
  import opened Prelude
  import opened HashLinks
  import Json

  datatype HashVersion = V1 | V2

  /** A row as the store returns it: hashed content, the two hash columns, version and write order. */
  datatype Row = Row(
    id: string,
    action: string,
    memoryId: string,
    tenantId: string,
    actorJson: string,
    reason: Option<string>,
    detailsJson: string,
    timestamp: string,
    entryHash: Option<string>,
    prevEntryHash: Option<string>,
    hashVersion: Option<int>,
    seqNo: Option<int>)

  function Nullable(s: Option<string>): Json.Value {
    match s
    case None => Json.Null
    case Some(t) => Json.Str(t)
  }

  function CanonicalRowV1(row: Row): Json.Value {
    Json.Obj([
      Json.Field("id", Json.Str(row.id)),
      Json.Field("action", Json.Str(row.action)),
      Json.Field("memory_id", Json.Str(row.memoryId)),
      Json.Field("tenant_id", Json.Str(row.tenantId)),
      Json.Field("actor_json", Json.Str(row.actorJson)),
      Json.Field("reason", Nullable(row.reason)),
      Json.Field("details_json", Json.Str(row.detailsJson)),
      Json.Field("timestamp", Json.Str(row.timestamp)),
      Json.Field("prev_entry_hash", Nullable(row.prevEntryHash))])
  }

  function CanonicalRowV2(row: Row): Json.Value {
    Json.Obj([
      Json.Field("id", Json.Str(row.id)),
      Json.Field("action", Json.Str(row.action)),
      Json.Field("memory_id", Json.Str(row.memoryId)),
      Json.Field("tenant_id", Json.Str(row.tenantId)),
      Json.Field("actor_json", Json.Str(row.actorJson)),
      Json.Field("reason", Nullable(row.reason)),
      Json.Field("details_json", Json.Str(row.detailsJson)),
      Json.Field("prev_entry_hash", Nullable(row.prevEntryHash))])
  }

  function CanonicalRowJson(row: Row, version: HashVersion): string {
    Json.Print(CanonicalRow(row, version))
  }

  function ComputeEntryHash(sha: Digest, row: Row, version: HashVersion): string {
    sha(CanonicalRowJson(row, version))
  }

  /** Anything but 2, null included, is the original timestamp-in-hash form. */
  function RowHashVersion(row: Row): HashVersion {
    if row.hashVersion == Some(2) then V2 else V1
  }

  function RowBody(row: Row): string {
    CanonicalRowJson(row, RowHashVersion(row))
  }

  function ExpectedHash(sha: Digest, row: Row): string {
    ComputeEntryHash(sha, row, RowHashVersion(row))
  }

  /** The columns outside the chain: what an event says. */
  predicate SameEvent(a: Row, b: Row) {
    a.id == b.id && a.action == b.action && a.memoryId == b.memoryId && a.tenantId == b.tenantId &&
    a.actorJson == b.actorJson && a.reason == b.reason && a.detailsJson == b.detailsJson
  }

  /** Equality in everything a body of the version covers. */
  predicate SameHashedFields(a: Row, b: Row, version: HashVersion) {
    SameEvent(a, b) && a.prevEntryHash == b.prevEntryHash && (version == V1 ==> a.timestamp == b.timestamp)
  }

  function CanonicalRow(row: Row, version: HashVersion): Json.Value {
    if version == V1 then CanonicalRowV1(row) else CanonicalRowV2(row)
  }

  lemma CanonicalRowInjective(a: Row, va: HashVersion, b: Row, vb: HashVersion)
    requires CanonicalRow(a, va) == CanonicalRow(b, vb)
    ensures va == vb && SameHashedFields(a, b, va)
  {
    var x, y := CanonicalRow(a, va).fields, CanonicalRow(b, vb).fields;
    assert |x| == |y|;
    assert x[0] == y[0] && x[1] == y[1] && x[2] == y[2] && x[3] == y[3] && x[4] == y[4] && x[5] == y[5];
    assert x[6] == y[6] && x[7] == y[7] && (va == V1 ==> x[8] == y[8]);
  }

  /** The printer is injective on what it covers, and no v1 body is a v2 body. */
  lemma CanonicalRowJsonInjective(a: Row, va: HashVersion, b: Row, vb: HashVersion)
    ensures CanonicalRowJson(a, va) == CanonicalRowJson(b, vb) <==>
            va == vb && SameHashedFields(a, b, va)
  {
    if CanonicalRowJson(a, va) == CanonicalRowJson(b, vb) {
      Json.PrintInjective(CanonicalRow(a, va), CanonicalRow(b, vb));
      CanonicalRowInjective(a, va, b, vb);
    }
  }

  /** Rows with one body agree on every field a reader of the ledger may rely on. */
  lemma RowBodyInjective(a: Row, b: Row)
    ensures RowBody(a) == RowBody(b) <==>
            RowHashVersion(a) == RowHashVersion(b) && SameHashedFields(a, b, RowHashVersion(a))
  {
    CanonicalRowJsonInjective(a, RowHashVersion(a), b, RowHashVersion(b));
  }

  // ---------- the frozen texts ----------

  function NullableText(s: Option<string>): string {
    if s.None? then "null" else Json.Quote(s.value)
  }

  /** The version-1 members: nine keys in this order, the timestamp among them. */
  function FrozenV1(row: Row): seq<(string, string)> {
    [("id", Json.Quote(row.id)), ("action", Json.Quote(row.action)), ("memory_id", Json.Quote(row.memoryId)),
     ("tenant_id", Json.Quote(row.tenantId)), ("actor_json", Json.Quote(row.actorJson)),
     ("reason", NullableText(row.reason)), ("details_json", Json.Quote(row.detailsJson)),
     ("timestamp", Json.Quote(row.timestamp)), ("prev_entry_hash", NullableText(row.prevEntryHash))]
  }

  /** The version-2 members: the same without the timestamp. */
  function FrozenV2(row: Row): seq<(string, string)> {
    [("id", Json.Quote(row.id)), ("action", Json.Quote(row.action)), ("memory_id", Json.Quote(row.memoryId)),
     ("tenant_id", Json.Quote(row.tenantId)), ("actor_json", Json.Quote(row.actorJson)),
     ("reason", NullableText(row.reason)), ("details_json", Json.Quote(row.detailsJson)),
     ("prev_entry_hash", NullableText(row.prevEntryHash))]
  }

  lemma NullablePrints(s: Option<string>)
    ensures Json.Print(Nullable(s)) == NullableText(s)
  {
  }

  lemma MembersV1(row: Row)
    ensures Json.Members(CanonicalRowV1(row).fields) == FrozenV1(row)
  {
    NullablePrints(row.reason);
    NullablePrints(row.prevEntryHash);
  }

  lemma MembersV2(row: Row)
    ensures Json.Members(CanonicalRowV2(row).fields) == FrozenV2(row)
  {
    NullablePrints(row.reason);
    NullablePrints(row.prevEntryHash);
  }

  /** The hashed text of a row, key by key, chosen by the stored version: 2 is version 2, anything else version 1. */
  lemma RowBodySpelledOut(row: Row)
    ensures RowBody(row) == Json.ObjectText(if row.hashVersion == Some(2) then FrozenV2(row) else FrozenV1(row))
  {
    hide FrozenV1, FrozenV2;
    Json.PrintIsObjectText(CanonicalRow(row, RowHashVersion(row)).fields);
    if row.hashVersion == Some(2) {
      MembersV2(row);
    } else {
      MembersV1(row);
    }
  }
}
