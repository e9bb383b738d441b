/**
 * The exception manifest spelled out (packages/store/src/exception-manifest.ts): its hashed text key by
 * key, and what a file must hold to be accepted.
 */
module ManifestVerdict {
  import opened Prelude
  import opened HashLinks
  import opened AuditChain
  import opened AuditVerify
  import opened ExceptionManifest
  import opened Sorting
  import Json

  // ---------- the hashed text ----------

  function NameOf(r: Reason): string {
    match r
    case EntryHashMismatch => "ENTRY_HASH_MISMATCH"
    case PrevLinkMismatch => "PREV_LINK_MISMATCH"
    case PrevLinkAndEntryHashMismatch => "PREV_LINK_AND_ENTRY_HASH_MISMATCH"
    case ChainFork => "CHAIN_FORK"
  }

  function EntryMembers(e: Entry): seq<(string, string)> {
    [("id", Json.Quote(e.id)), ("entryHash", NullableText(e.entryHash)), ("prevEntryHash", NullableText(e.prevEntryHash)),
     ("hashVersion", Json.PrintInt(e.hashVersion)), ("seq", Json.PrintInt(e.seqNo)), ("reason", Json.Quote(NameOf(e.reason)))]
  }

  function EntryTexts(entries: seq<Entry>): (r: seq<string>)
    ensures |r| == |entries| && forall i :: 0 <= i < |entries| ==> r[i] == Json.ObjectText(EntryMembers(entries[i]))
  {
    seq(|entries|, i requires 0 <= i < |entries| => Json.ObjectText(EntryMembers(entries[i])))
  }

  /** The members of the hashed body, the entries given in ascending order. */
  function BodyMembers(b: Body, entries: seq<Entry>): seq<(string, string)> {
    [("schemaVersion", "1"), ("brainId", NullableText(b.brainId)), ("generatedAt", Json.Quote(b.generatedAt)),
     ("entryCount", Json.PrintInt(b.entryCount)), ("entries", Json.ArrayText(EntryTexts(entries)))]
  }

  /** By write number, then by id in UTF-16 code units. */
  ghost predicate AscendingPins(entries: seq<Entry>) {
    forall i: nat, j: nat :: i < j < |entries| ==>
      entries[i].seqNo < entries[j].seqNo ||
      (entries[i].seqNo == entries[j].seqNo && LexLe(Units(entries[i].id), Units(entries[j].id)))
  }

  lemma AscendingPinsSorted(entries: seq<Entry>)
    ensures AscendingPins(entries) <==> Sorted(entries, EntryLe)
  {
    forall i: nat, j: nat | i < j < |entries|
      ensures StringLe(entries[i].id, entries[j].id) <==> LexLe(Units(entries[i].id), Units(entries[j].id))
    {
      StringLeIsCodeUnitOrder(entries[i].id, entries[j].id);
    }
  }

  lemma EntryMembersAre(e: Entry)
    ensures Json.Members(EntryValue(e).fields) == EntryMembers(e)
  {
    hide Nullable, NullableText, Json.Quote;
    NullablePrints(e.entryHash);
    NullablePrints(e.prevEntryHash);
  }

  lemma EntryTextIsJson(e: Entry)
    ensures Json.Print(EntryValue(e)) == Json.ObjectText(EntryMembers(e))
  {
    hide EntryMembers;
    EntryMembersAre(e);
    Json.PrintIsObjectText(EntryValue(e).fields);
  }

  lemma {:induction false} EntryValuesAt(entries: seq<Entry>, i: nat)
    requires i < |entries|
    ensures |EntryValues(entries)| == |entries| && EntryValues(entries)[i] == EntryValue(entries[i])
  {
    EntryValuesLength(entries);
    EntryValuesLength(Init(entries));
    if i < |entries| - 1 {
      EntryValuesAt(Init(entries), i);
    }
  }

  lemma EntriesText(entries: seq<Entry>)
    ensures Json.Print(Json.Arr(EntryValues(entries))) == Json.ArrayText(EntryTexts(entries))
  {
    Json.PrintIsArrayText(EntryValues(entries));
    EntryValuesLength(entries);
    forall i: nat | i < |entries|
      ensures Json.Printed(EntryValues(entries))[i] == EntryTexts(entries)[i]
    {
      EntryValuesAt(entries, i);
      EntryTextIsJson(entries[i]);
    }
    assert Json.Printed(EntryValues(entries)) == EntryTexts(entries);
  }

  lemma BodyMembersAre(b: Body)
    ensures Json.Members(BodyValue(b).fields) == BodyMembers(b, SortedEntries(b.entries))
  {
    hide Nullable, NullableText, EntryValues, SortedEntries, Json.Quote, Json.ArrayText, Json.PrintInt, Json.Print;
    EntriesText(SortedEntries(b.entries));
    NullablePrints(b.brainId);
    Json.NumPrints(1);
    Json.OnePrints();
    Json.NumPrints(b.entryCount);
    Json.StrPrints(b.generatedAt);
  }

  /** The hashed text of a manifest, key by key, its entries ascending. */
  lemma ManifestBodySpelledOut(b: Body, entries: seq<Entry>)
    requires DistinctPins(b.entries) && multiset(entries) == multiset(b.entries) && AscendingPins(entries)
    ensures ManifestBodyJson(b) == Json.ObjectText(BodyMembers(b, entries))
  {
    hide BodyMembers;
    EntryOrder();
    DistinctPinsNoTies(b.entries);
    SortSorted(b.entries, EntryLe);
    SortMultiset(b.entries, EntryLe);
    AscendingPinsSorted(entries);
    NoTiesPermuted(b.entries, entries);
    SortedUnique(entries, SortedEntries(b.entries), EntryLe);
    BodyMembersAre(b);
    Json.PrintIsObjectText(BodyValue(b).fields);
  }

  lemma NoTiesPermuted(xs: seq<Entry>, ys: seq<Entry>)
    requires NoTies(xs, EntryLe) && multiset(xs) == multiset(ys)
    ensures NoTies(ys, EntryLe)
  {
    forall x, y | x in ys && y in ys && EntryLe(x, y) && EntryLe(y, x)
      ensures x == y
    {
      SameMultisetSameMembers(xs, ys, x);
      SameMultisetSameMembers(xs, ys, y);
    }
  }

  // ---------- what is accepted ----------

  ghost predicate HasStr(v: Json.Value, key: string, s: string) {
    v.Obj? && Json.Get(v.fields, key) == Some(Json.Str(s))
  }

  ghost predicate HasNum(v: Json.Value, key: string, n: int) {
    v.Obj? && Json.Get(v.fields, key) == Some(Json.Num(n))
  }

  ghost predicate HasStrOrNull(v: Json.Value, key: string, s: Option<string>) {
    v.Obj? && Json.Get(v.fields, key) == Some(if s.None? then Json.Null else Json.Str(s.value))
  }

  /** The object is this entry, its reason one of the three tamper reasons. */
  ghost predicate IsEntry(v: Json.Value, e: Entry) {
    HasStr(v, "id", e.id) && HasStrOrNull(v, "entryHash", e.entryHash) && HasStrOrNull(v, "prevEntryHash", e.prevEntryHash) &&
    HasNum(v, "hashVersion", e.hashVersion) && HasNum(v, "seq", e.seqNo) && HasStr(v, "reason", NameOf(e.reason)) &&
    e.reason != ChainFork
  }

  ghost predicate AreEntries(items: seq<Json.Value>, entries: seq<Entry>) {
    |items| == |entries| && forall i :: 0 <= i < |items| ==> IsEntry(items[i], entries[i])
  }

  /** The object is this manifest: schema 1, a brain id, null or none, and the entries in their order. */
  ghost predicate IsManifest(v: Json.Value, m: Manifest) {
    HasNum(v, "schemaVersion", 1) &&
    (HasStrOrNull(v, "brainId", m.body.brainId) || (Json.Get(v.fields, "brainId") == None && m.body.brainId == None)) &&
    HasStr(v, "generatedAt", m.body.generatedAt) && HasNum(v, "entryCount", m.body.entryCount) &&
    HasStr(v, "manifestHash", m.manifestHash) &&
    Json.Get(v.fields, "entries").Some? && Json.Get(v.fields, "entries").value.Arr? &&
    AreEntries(Json.Get(v.fields, "entries").value.items, m.body.entries)
  }

  lemma ReasonRead(name: string, r: Reason)
    ensures TamperReasonOf(name) == Some(r) <==> name == NameOf(r) && r != ChainFork
  {
    DecodeReason(r);
    if TamperReasonOf(name).Some? {
      assert name == ReasonName(TamperReasonOf(name).value);
    }
  }

  lemma DecodeEntryIff(v: Json.Value, e: Entry)
    ensures DecodeEntry(v) == Some(e) <==> IsEntry(v, e)
  {
    if v.Obj? && StrAt(v.fields, "reason").Some? {
      ReasonRead(StrAt(v.fields, "reason").value, e.reason);
    }
  }

  lemma {:induction false} DecodeEntriesIff(items: seq<Json.Value>, entries: seq<Entry>)
    ensures DecodeEntries(items) == Some(entries) <==> AreEntries(items, entries)
  {
    if |items| > 0 && |entries| > 0 {
      DecodeEntriesIff(Init(items), Init(entries));
      DecodeEntryIff(Last(items), Last(entries));
      assert entries == Init(entries) + [Last(entries)];
      AreEntriesSnoc(items, entries);
      if DecodeEntries(items) == Some(entries) {
        assert Init(entries) == DecodeEntries(Init(items)).value;
      }
    }
  }

  lemma AreEntriesSnoc(items: seq<Json.Value>, entries: seq<Entry>)
    requires |items| > 0 && |entries| > 0
    ensures AreEntries(items, entries) <==> AreEntries(Init(items), Init(entries)) && IsEntry(Last(items), Last(entries))
  {
  }

  lemma DecodeManifestIff(v: Json.Value, m: Manifest)
    ensures DecodeManifest(v) == Some(m) <==> IsManifest(v, m)
  {
    hide DecodeEntries, AreEntries;
    if v.Obj? && Json.Get(v.fields, "entries").Some? && Json.Get(v.fields, "entries").value.Arr? {
      DecodeEntriesIff(Json.Get(v.fields, "entries").value.items, m.body.entries);
    }
  }

  /** Exactly what is accepted: the manifest the file holds, with an honest count and a hash that recomputes. */
  lemma AcceptedIff(sha: Digest, v: Json.Value, m: Manifest)
    ensures ReadManifest(sha, Some(v)) == Ok(m) <==>
            IsManifest(v, m) && |m.body.entries| == m.body.entryCount && sha(ManifestBodyJson(m.body)) == m.manifestHash
  {
    DecodeManifestIff(v, m);
  }

  /** And which gate refuses: no manifest in it, a drifted count before an edited text. */
  lemma RefusedBy(sha: Digest, v: Json.Value)
    ensures ReadManifest(sha, None) == Err(NotJson)
    ensures ReadManifest(sha, Some(v)) == Err(SchemaInvalid) <==> forall m :: !IsManifest(v, m)
    ensures forall m :: IsManifest(v, m) && |m.body.entries| != m.body.entryCount ==> ReadManifest(sha, Some(v)) == Err(CountDrift)
    ensures forall m ::
              IsManifest(v, m) && |m.body.entries| == m.body.entryCount && sha(ManifestBodyJson(m.body)) != m.manifestHash ==>
              ReadManifest(sha, Some(v)) == Err(HashMismatch)
  {
    forall m
      ensures DecodeManifest(v) == Some(m) <==> IsManifest(v, m)
    {
      DecodeManifestIff(v, m);
    }
  }
}
