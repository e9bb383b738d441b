/**
 * The byte-pinned exception manifest and the three-way break classifier
 * (packages/store/src/exception-manifest.ts), with the generator of apps/curator/src/cli.ts.
 */
module ExceptionManifest {
  import opened Prelude
  import opened HashLinks
  import opened AuditChain
  import opened AuditVerify
  import opened Sorting
  import Json

  datatype Entry = Entry(
    id: string,
    entryHash: Option<string>,
    prevEntryHash: Option<string>,
    hashVersion: int,
    seqNo: int,
    reason: Reason)

  datatype Body = Body(brainId: Option<string>, generatedAt: string, entryCount: int, entries: seq<Entry>)

  datatype Manifest = Manifest(body: Body, manifestHash: string)

  // ---------- the hashed body ----------

  predicate EntryLe(a: Entry, b: Entry) {
    a.seqNo < b.seqNo || (a.seqNo == b.seqNo && StringLe(a.id, b.id))
  }

  function SortedEntries(entries: seq<Entry>): seq<Entry> {
    Sort(entries, EntryLe)
  }

  function ReasonName(r: Reason): string {
    match r
    case EntryHashMismatch => "ENTRY_HASH_MISMATCH"
    case PrevLinkMismatch => "PREV_LINK_MISMATCH"
    case PrevLinkAndEntryHashMismatch => "PREV_LINK_AND_ENTRY_HASH_MISMATCH"
    case ChainFork => "CHAIN_FORK"
  }

  function EntryValue(e: Entry): Json.Value {
    Json.Obj([
      Json.Field("id", Json.Str(e.id)),
      Json.Field("entryHash", Nullable(e.entryHash)),
      Json.Field("prevEntryHash", Nullable(e.prevEntryHash)),
      Json.Field("hashVersion", Json.Num(e.hashVersion)),
      Json.Field("seq", Json.Num(e.seqNo)),
      Json.Field("reason", Json.Str(ReasonName(e.reason)))])
  }

  function EntryValues(entries: seq<Entry>): seq<Json.Value> {
    if |entries| == 0 then [] else EntryValues(Init(entries)) + [EntryValue(Last(entries))]
  }

  function BodyValue(b: Body): Json.Value {
    Json.Obj([
      Json.Field("schemaVersion", Json.Num(1)),
      Json.Field("brainId", Nullable(b.brainId)),
      Json.Field("generatedAt", Json.Str(b.generatedAt)),
      Json.Field("entryCount", Json.Num(b.entryCount)),
      Json.Field("entries", Json.Arr(EntryValues(SortedEntries(b.entries))))])
  }

  function ManifestBodyJson(b: Body): string {
    Json.Print(BodyValue(b))
  }

  function ComputeManifestHash(sha: Digest, b: Body): string {
    sha(ManifestBodyJson(b))
  }

  lemma EntryValueInjective(a: Entry, b: Entry)
    requires EntryValue(a) == EntryValue(b)
    ensures a == b
  {
    var x, y := EntryValue(a).fields, EntryValue(b).fields;
    assert x[0] == y[0] && x[1] == y[1] && x[2] == y[2] && x[3] == y[3] && x[4] == y[4] && x[5] == y[5];
    ReasonNameInjective(a.reason, b.reason);
  }

  lemma ReasonNameInjective(a: Reason, b: Reason)
    requires ReasonName(a) == ReasonName(b)
    ensures a == b
  {
    assert ReasonName(EntryHashMismatch)[0] == 'E' && ReasonName(ChainFork)[0] == 'C';
    assert |ReasonName(PrevLinkMismatch)| != |ReasonName(PrevLinkAndEntryHashMismatch)|;
    assert ReasonName(PrevLinkMismatch)[0] == 'P' && ReasonName(PrevLinkAndEntryHashMismatch)[0] == 'P';
  }

  lemma {:induction false} EntryValuesLength(entries: seq<Entry>)
    ensures |EntryValues(entries)| == |entries|
  {
    if |entries| > 0 {
      EntryValuesLength(Init(entries));
    }
  }

  lemma {:induction false} EntryValuesInjective(a: seq<Entry>, b: seq<Entry>)
    requires EntryValues(a) == EntryValues(b)
    ensures a == b
  {
    EntryValuesLength(a);
    EntryValuesLength(b);
    if |a| > 0 {
      var x, y := EntryValues(a), EntryValues(b);
      assert Init(x) == EntryValues(Init(a)) && Init(y) == EntryValues(Init(b));
      EntryValuesInjective(Init(a), Init(b));
      assert Last(x) == Last(y);
      EntryValueInjective(Last(a), Last(b));
      assert a == Init(a) + [Last(a)] && b == Init(b) + [Last(b)];
    }
  }

  lemma EntryOrder()
    ensures TotalPreorder(EntryLe)
  {
    StringOrder();
  }

  /** No two entries share both sequence number and id. */
  ghost predicate DistinctPins(entries: seq<Entry>) {
    forall a, b :: a in entries && b in entries && a.seqNo == b.seqNo && a.id == b.id ==> a == b
  }

  lemma DistinctPinsNoTies(entries: seq<Entry>)
    requires DistinctPins(entries)
    ensures NoTies(entries, EntryLe)
  {
    StringOrder();
  }

  /** Equality of everything but the order of the entries. */
  predicate SameUpToEntryOrder(a: Body, b: Body) {
    a.(entries := []) == b.(entries := []) && multiset(a.entries) == multiset(b.entries)
  }

  lemma BodyValueFixes(a: Body, b: Body)
    requires BodyValue(a) == BodyValue(b)
    ensures a.(entries := []) == b.(entries := [])
    ensures EntryValues(SortedEntries(a.entries)) == EntryValues(SortedEntries(b.entries))
  {
    var x, y := BodyValue(a).fields, BodyValue(b).fields;
    assert x[1] == y[1] && x[2] == y[2] && x[3] == y[3] && x[4] == y[4];
  }

  /** The hashed text fixes the manifest up to the order of its entries. */
  lemma BodyJsonFixesManifest(a: Body, b: Body)
    requires ManifestBodyJson(a) == ManifestBodyJson(b)
    ensures SameUpToEntryOrder(a, b)
  {
    Json.PrintInjective(BodyValue(a), BodyValue(b));
    BodyValueFixes(a, b);
    EntryValuesInjective(SortedEntries(a.entries), SortedEntries(b.entries));
    SortMultiset(a.entries, EntryLe);
    SortMultiset(b.entries, EntryLe);
  }

  /** And with distinct (seq, id) pairs it fixes nothing more: the order of the entries is not hashed. */
  lemma BodyJsonIgnoresEntryOrder(a: Body, b: Body)
    requires DistinctPins(a.entries)
    ensures ManifestBodyJson(a) == ManifestBodyJson(b) <==> SameUpToEntryOrder(a, b)
  {
    if SameUpToEntryOrder(a, b) {
      EntryOrder();
      DistinctPinsNoTies(a.entries);
      SortIgnoresOrder(a.entries, b.entries, EntryLe);
      assert BodyValue(a) == BodyValue(b);
    }
    if ManifestBodyJson(a) == ManifestBodyJson(b) {
      BodyJsonFixesManifest(a, b);
    }
  }

  // ---------- the file ----------

  /** The manifest as written: brainId only when there is one, entries in the order they were pinned. */
  function ManifestValue(m: Manifest): Json.Value {
    Json.Obj(
      [Json.Field("schemaVersion", Json.Num(1))] +
      (if m.body.brainId.Some? then [Json.Field("brainId", Json.Str(m.body.brainId.value))] else []) +
      [Json.Field("generatedAt", Json.Str(m.body.generatedAt)),
       Json.Field("entryCount", Json.Num(m.body.entryCount)),
       Json.Field("entries", Json.Arr(EntryValues(m.body.entries))),
       Json.Field("manifestHash", Json.Str(m.manifestHash))])
  }

  function StrAt(fields: seq<Json.Field>, key: string): Option<string> {
    match Json.Get(fields, key)
    case Some(Str(s)) => Some(s)
    case _ => None
  }

  function NumAt(fields: seq<Json.Field>, key: string): Option<int> {
    match Json.Get(fields, key)
    case Some(Num(n)) => Some(n)
    case _ => None
  }

  /** A required string-or-null field: the outer option is presence, the inner one null. */
  function NullableAt(fields: seq<Json.Field>, key: string): Option<Option<string>> {
    match Json.Get(fields, key)
    case Some(Str(s)) => Some(Some(s))
    case Some(Null) => Some(None)
    case _ => None
  }

  /** Only the three tamper reasons may be pinned. */
  function TamperReasonOf(name: string): Option<Reason> {
    if name == ReasonName(EntryHashMismatch) then Some(EntryHashMismatch)
    else if name == ReasonName(PrevLinkMismatch) then Some(PrevLinkMismatch)
    else if name == ReasonName(PrevLinkAndEntryHashMismatch) then Some(PrevLinkAndEntryHashMismatch)
    else None
  }

  function DecodeEntry(v: Json.Value): Option<Entry> {
    if !v.Obj? then None
    else
      var f := v.fields;
      match (StrAt(f, "id"), NullableAt(f, "entryHash"), NullableAt(f, "prevEntryHash"),
             NumAt(f, "hashVersion"), NumAt(f, "seq"), StrAt(f, "reason"))
      case (Some(id), Some(entryHash), Some(prev), Some(version), Some(seqNo), Some(name)) =>
        (match TamperReasonOf(name)
         case Some(reason) => Some(Entry(id, entryHash, prev, version, seqNo, reason))
         case None => None)
      case _ => None
  }

  function DecodeEntries(items: seq<Json.Value>): Option<seq<Entry>> {
    if |items| == 0 then Some([])
    else
      match (DecodeEntries(Init(items)), DecodeEntry(Last(items)))
      case (Some(es), Some(e)) => Some(es + [e])
      case _ => None
  }

  /** An optional, nullable field: absent and null are the same, another type is an error. */
  function BrainIdAt(fields: seq<Json.Field>): Option<Option<string>> {
    if Json.Get(fields, "brainId").None? then Some(None) else NullableAt(fields, "brainId")
  }

  function DecodeManifest(v: Json.Value): Option<Manifest> {
    if !v.Obj? || NumAt(v.fields, "schemaVersion") != Some(1) then None
    else
      var f := v.fields;
      match (BrainIdAt(f), StrAt(f, "generatedAt"), NumAt(f, "entryCount"), Json.Get(f, "entries"), StrAt(f, "manifestHash"))
      case (Some(brainId), Some(at), Some(count), Some(Arr(items)), Some(hash)) =>
        (match DecodeEntries(items)
         case Some(entries) => Some(Manifest(Body(brainId, at, count, entries), hash))
         case None => None)
      case _ => None
  }

  datatype ManifestError = NotJson | SchemaInvalid | CountDrift | HashMismatch

  /** The three gates on a file that was read and parsed (None: unreadable or not JSON). */
  function ReadManifest(sha: Digest, parsed: Option<Json.Value>): Result<Manifest, ManifestError> {
    match parsed
    case None => Err(NotJson)
    case Some(v) =>
      match DecodeManifest(v)
      case None => Err(SchemaInvalid)
      case Some(m) =>
        if |m.body.entries| != m.body.entryCount then Err(CountDrift)
        else if ComputeManifestHash(sha, m.body) != m.manifestHash then Err(HashMismatch)
        else Ok(m)
  }

  ghost predicate OnlyTamperReasons(entries: seq<Entry>) {
    forall e :: e in entries ==> e.reason != ChainFork
  }

  lemma DecodeEntryValue(e: Entry)
    ensures DecodeEntry(EntryValue(e)) == if e.reason == ChainFork then None else Some(e)
  {
    var f := EntryValue(e).fields;
    assert f[0].key == "id" && f[1].key == "entryHash" && f[2].key == "prevEntryHash";
    assert f[3].key == "hashVersion" && f[4].key == "seq" && f[5].key == "reason";
    Json.GetAt(f, 0);
    Json.GetAt(f, 1);
    Json.GetAt(f, 2);
    Json.GetAt(f, 3);
    Json.GetAt(f, 4);
    Json.GetAt(f, 5);
    DecodeReason(e.reason);
  }

  lemma DecodeReason(r: Reason)
    ensures TamperReasonOf(ReasonName(r)) == if r == ChainFork then None else Some(r)
  {
    if TamperReasonOf(ReasonName(r)).Some? {
      ReasonNameInjective(r, TamperReasonOf(ReasonName(r)).value);
    }
  }

  /** A list of entries is read back unless it pins a fork. */
  lemma {:induction false} DecodeEntryValues(entries: seq<Entry>)
    ensures DecodeEntries(EntryValues(entries)) == if OnlyTamperReasons(entries) then Some(entries) else None
  {
    if |entries| > 0 {
      var before, e := Init(entries), Last(entries);
      DecodeEntryValues(before);
      DecodeEntryValue(e);
      assert Init(EntryValues(entries)) == EntryValues(before);
      assert entries == before + [e];
      assert OnlyTamperReasons(entries) <==> OnlyTamperReasons(before) && e.reason != ChainFork;
    }
  }

  lemma NoBrainId(m: Manifest)
    requires m.body.brainId.None?
    ensures Json.Get(ManifestValue(m).fields, "brainId") == None
  {
    var f := ManifestValue(m).fields;
    assert f[0].key == "schemaVersion" && f[1].key == "generatedAt" && f[2].key == "entryCount";
    assert f[3].key == "entries" && f[4].key == "manifestHash";
    GetMissing(f, "brainId");
  }

  lemma {:induction false} GetMissing(fields: seq<Json.Field>, key: string)
    requires forall f :: f in fields ==> f.key != key
    ensures Json.Get(fields, key) == None
  {
    if |fields| > 0 {
      GetMissing(Init(fields), key);
    }
  }

  lemma ManifestFields(m: Manifest)
    ensures var f := ManifestValue(m).fields;
            Json.Get(f, "schemaVersion") == Some(Json.Num(1)) &&
            Json.Get(f, "generatedAt") == Some(Json.Str(m.body.generatedAt)) &&
            Json.Get(f, "entryCount") == Some(Json.Num(m.body.entryCount)) &&
            Json.Get(f, "entries") == Some(Json.Arr(EntryValues(m.body.entries))) &&
            Json.Get(f, "manifestHash") == Some(Json.Str(m.manifestHash))
  {
    var f := ManifestValue(m).fields;
    var k := if m.body.brainId.Some? then 1 else 0;
    assert k == 1 ==> f[1].key == "brainId";
    assert f[0].key == "schemaVersion" && f[k + 1].key == "generatedAt" && f[k + 2].key == "entryCount";
    assert f[k + 3].key == "entries" && f[k + 4].key == "manifestHash";
    Json.GetAt(f, 0);
    Json.GetAt(f, k + 1);
    Json.GetAt(f, k + 2);
    Json.GetAt(f, k + 3);
    Json.GetAt(f, k + 4);
  }

  lemma ManifestBrainId(m: Manifest)
    ensures BrainIdAt(ManifestValue(m).fields) == Some(m.body.brainId)
  {
    if m.body.brainId.None? {
      NoBrainId(m);
    } else {
      var f := ManifestValue(m).fields;
      assert f[1].key == "brainId" && f[2].key == "generatedAt" && f[3].key == "entryCount";
      assert f[4].key == "entries" && f[5].key == "manifestHash";
      Json.GetAt(f, 1);
    }
  }

  /** Exactly which written manifests are accepted: no fork pinned, an honest count, a hash that recomputes. */
  lemma ReadBackIff(sha: Digest, m: Manifest)
    ensures ReadManifest(sha, Some(ManifestValue(m))) ==
            if !OnlyTamperReasons(m.body.entries) then Err(SchemaInvalid)
            else if |m.body.entries| != m.body.entryCount then Err(CountDrift)
            else if ComputeManifestHash(sha, m.body) != m.manifestHash then Err(HashMismatch)
            else Ok(m)
  {
    ManifestFields(m);
    ManifestBrainId(m);
    DecodeEntryValues(m.body.entries);
  }

  /** A hash published once fixes what may be accepted under it, up to the order of the entries. */
  lemma AcceptedHashFixesManifest(sha: Digest, v: Json.Value, w: Json.Value)
    requires ReadManifest(sha, Some(v)).Ok? && ReadManifest(sha, Some(w)).Ok?
    requires var a, b := ReadManifest(sha, Some(v)).value, ReadManifest(sha, Some(w)).value;
             a.manifestHash == b.manifestHash &&
             (sha(ManifestBodyJson(a.body)) == sha(ManifestBodyJson(b.body)) ==> ManifestBodyJson(a.body) == ManifestBodyJson(b.body))
    ensures SameUpToEntryOrder(ReadManifest(sha, Some(v)).value.body, ReadManifest(sha, Some(w)).value.body)
  {
    BodyJsonFixesManifest(ReadManifest(sha, Some(v)).value.body, ReadManifest(sha, Some(w)).value.body);
  }
}
