/** Append-only revisions of a frozen review dataset (packages/eval-surface/src/review-agent-frozen.ts). */
module FrozenReview {
  import opened Prelude
  import opened HashLinks

  datatype Kind = Synthetic | HumanReviewed

  datatype CaseRef = CaseRef(id: string, sha256: string)

  datatype Manifest = Manifest(
    datasetId: string,
    kind: Kind,
    revision: int,
    previousManifestSha256: Option<string>,
    recallFloors: string,
    cases: seq<CaseRef>)

  /** Reading a manifest's text: JSON and schema; None where either refuses. */
  type Schema = string -> Option<Manifest>

  /** A manifest text under the hash it is trusted by. */
  datatype Checkpoint = Checkpoint(text: string, sha256: string)

  ghost predicate UniqueCaseIds(cases: seq<CaseRef>) {
    forall i: nat, j: nat :: i < j < |cases| ==> cases[i].id != cases[j].id
  }

  function IdsOf(cases: seq<CaseRef>): set<string> {
    set c | c in cases :: c.id
  }

  /** The text is the one the hash names, it is a manifest, and its first revision is the one without a predecessor. */
  ghost predicate Trusted(sha: Digest, schema: Schema, c: Checkpoint) {
    sha(c.text) == c.sha256 && schema(c.text).Some? &&
    var m := schema(c.text).value;
    UniqueCaseIds(m.cases) && (m.revision == 1 <==> m.previousManifestSha256.None?)
  }

  lemma IdsSnoc(cases: seq<CaseRef>, last: CaseRef)
    ensures IdsOf(cases + [last]) == IdsOf(cases) + {last.id}
  {
    forall c
      ensures c in cases + [last] <==> c in cases || c == last
    {
    }
  }

  lemma UniqueSnoc(cases: seq<CaseRef>, last: CaseRef)
    ensures UniqueCaseIds(cases + [last]) <==> UniqueCaseIds(cases) && last.id !in IdsOf(cases)
  {
    var longer, n := cases + [last], |cases|;
    if last.id in IdsOf(cases) {
      var c :| c in cases && c.id == last.id;
      var i: nat :| i < n && cases[i] == c;
      assert longer[i].id == longer[n].id;
    } else {
      assert forall i: nat :: i < n ==> cases[i] in cases && cases[i].id in IdsOf(cases);
    }
    if UniqueCaseIds(longer) {
      assert forall i: nat :: i < n ==> longer[i] == cases[i];
    }
  }

  lemma {:induction false} IdsCount(cases: seq<CaseRef>)
    ensures |IdsOf(cases)| <= |cases|
    ensures |IdsOf(cases)| == |cases| <==> UniqueCaseIds(cases)
  {
    if |cases| > 0 {
      IdsCount(Init(cases));
      IdsSnoc(Init(cases), Last(cases));
      UniqueSnoc(Init(cases), Last(cases));
      assert cases == Init(cases) + [Last(cases)];
    }
  }

  method ParseManifest(sha: Digest, schema: Schema, c: Checkpoint) returns (r: Option<Manifest>)
    ensures r == if Trusted(sha, schema, c) then schema(c.text) else None
  {
    if sha(c.text) != c.sha256 {
      return None;
    }
    var parsed := schema(c.text);
    if parsed.None? {
      return None;
    }
    var m := parsed.value;
    IdsCount(m.cases);
    if |IdsOf(m.cases)| != |m.cases| {
      return None;
    }
    if (m.revision == 1) != m.previousManifestSha256.None? {
      return None;
    }
    r := Some(m);
  }

  /** The next revision of the same dataset, with all earlier cases and at least one more. */
  predicate Extends(prior: Manifest, next: Manifest) {
    prior.revision + 1 == next.revision && prior.datasetId == next.datasetId && prior.kind == next.kind &&
    prior.recallFloors == next.recallFloors && prior.cases < next.cases
  }

  ghost predicate AppendOk(sha: Digest, schema: Schema, m: Manifest, previous: Option<Checkpoint>) {
    if m.revision == 1 then m.previousManifestSha256.None? && previous.None?
    else
      previous.Some? && m.previousManifestSha256 == Some(previous.value.sha256) && Trusted(sha, schema, previous.value) &&
      Extends(schema(previous.value.text).value, m)
  }

  /** The case-by-case comparison with the trusted prior checkpoint. */
  method CheckAppend(sha: Digest, schema: Schema, m: Manifest, previous: Option<Checkpoint>) returns (ok: bool)
    ensures ok == AppendOk(sha, schema, m, previous)
  {
    if m.revision == 1 {
      return m.previousManifestSha256.None? && previous.None?;
    }
    if previous.None? || m.previousManifestSha256 != Some(previous.value.sha256) {
      return false;
    }
    var parsed := ParseManifest(sha, schema, previous.value);
    if parsed.None? {
      return false;
    }
    var prior := parsed.value;
    if prior.revision + 1 != m.revision || prior.datasetId != m.datasetId || prior.kind != m.kind ||
       prior.recallFloors != m.recallFloors || |prior.cases| >= |m.cases| {
      return false;
    }
    for index := 0 to |prior.cases|
      invariant prior.cases[..index] == m.cases[..index]
    {
      if prior.cases[index] != m.cases[index] {
        return false;
      }
    }
    assert prior.cases == prior.cases[..|prior.cases|];
    ok := true;
  }

  /** What an append check accepts, field by field and case by case. */
  lemma AppendSpelledOut(sha: Digest, schema: Schema, m: Manifest, previous: Option<Checkpoint>)
    ensures AppendOk(sha, schema, m, previous) <==>
            if m.revision == 1 then m.previousManifestSha256 == None && previous == None
            else
              previous.Some? && m.previousManifestSha256 == Some(previous.value.sha256) &&
              sha(previous.value.text) == previous.value.sha256 && schema(previous.value.text).Some? &&
              var prior := schema(previous.value.text).value;
              (forall i: nat, j: nat :: i < j < |prior.cases| ==> prior.cases[i].id != prior.cases[j].id) &&
              (prior.previousManifestSha256 == None <==> prior.revision == 1) &&
              m.revision == prior.revision + 1 && m.datasetId == prior.datasetId && m.kind == prior.kind &&
              m.recallFloors == prior.recallFloors && |m.cases| > |prior.cases| &&
              forall i: nat :: i < |prior.cases| ==> m.cases[i] == prior.cases[i]
  {
    if m.revision != 1 && previous.Some? && schema(previous.value.text).Some? {
      var prior := schema(previous.value.text).value;
      assert prior.cases < m.cases <==> |m.cases| > |prior.cases| && m.cases[..|prior.cases|] == prior.cases;
    }
  }

  // ---------- whole chains ----------

  /** Revision i was accepted against revision i - 1, each under its own hash. */
  ghost predicate AcceptedAt(sha: Digest, schema: Schema, chain: seq<Checkpoint>, i: nat)
    requires i < |chain|
  {
    Trusted(sha, schema, chain[i]) &&
    AppendOk(sha, schema, schema(chain[i].text).value, if i == 0 then None else Some(chain[i - 1]))
  }

  ghost predicate Accepted(sha: Digest, schema: Schema, chain: seq<Checkpoint>) {
    forall i: nat :: i < |chain| ==> AcceptedAt(sha, schema, chain, i)
  }

  lemma {:induction false} RevisionsCount(sha: Digest, schema: Schema, chain: seq<Checkpoint>, i: nat)
    requires Accepted(sha, schema, chain) && i < |chain|
    ensures schema(chain[i].text).Some? && schema(chain[i].text).value.revision == i + 1
  {
    assert AcceptedAt(sha, schema, chain, i);
    if i > 0 {
      RevisionsCount(sha, schema, chain, i - 1);
    }
  }

  /** Every accepted revision chain extends all its ancestors: earlier cases are never changed, dropped or reordered. */
  lemma {:induction false} RevisionsExtendAncestors(sha: Digest, schema: Schema, chain: seq<Checkpoint>, i: nat, j: nat)
    requires Accepted(sha, schema, chain) && i < j < |chain|
    ensures schema(chain[i].text).Some? && schema(chain[j].text).Some?
    ensures var a, b := schema(chain[i].text).value, schema(chain[j].text).value;
            a.cases < b.cases && a.datasetId == b.datasetId && a.kind == b.kind && a.recallFloors == b.recallFloors &&
            b.revision == a.revision + (j - i)
  {
    assert AcceptedAt(sha, schema, chain, i) && AcceptedAt(sha, schema, chain, j);
    RevisionsCount(sha, schema, chain, j);
    RevisionsCount(sha, schema, chain, i);
    assert AcceptedAt(sha, schema, chain, j - 1);
    if i < j - 1 {
      RevisionsExtendAncestors(sha, schema, chain, i, j - 1);
    }
  }

  /** Revisions as a hash-linked list: the whole text is hashed, and the link is in the text. */
  function RevisionLinks(schema: Schema, chain: seq<Checkpoint>): (ls: seq<Link>)
    ensures |ls| == |chain|
    ensures forall i: nat :: i < |chain| ==> ls[i] == RevisionLink(schema, chain[i])
  {
    seq(|chain|, i requires 0 <= i < |chain| => RevisionLink(schema, chain[i]))
  }

  function RevisionLink(schema: Schema, c: Checkpoint): Link {
    Link(c.text, if schema(c.text).Some? then schema(c.text).value.previousManifestSha256 else None, c.sha256)
  }

  lemma AcceptedIsLinked(sha: Digest, schema: Schema, chain: seq<Checkpoint>)
    requires Accepted(sha, schema, chain)
    ensures Linked(sha, RevisionLinks(schema, chain))
  {
    forall i: nat | i < |chain|
      ensures LinkOk(sha, RevisionLinks(schema, chain), i)
    {
      assert AcceptedAt(sha, schema, chain, i);
      RevisionsCount(sha, schema, chain, i);
    }
  }

  /** The trusted hash of the newest revision fixes every revision before it. */
  lemma NewestHashFixesAllRevisions(sha: Digest, schema: Schema, chain: seq<Checkpoint>, other: seq<Checkpoint>)
    requires Accepted(sha, schema, chain) && Accepted(sha, schema, other)
    requires NoCollision(sha, RevisionLinks(schema, chain), RevisionLinks(schema, other))
    requires |chain| > 0 && |other| > 0 && Last(chain).sha256 == Last(other).sha256
    ensures chain == other
  {
    var a, b := RevisionLinks(schema, chain), RevisionLinks(schema, other);
    AcceptedIsLinked(sha, schema, chain);
    AcceptedIsLinked(sha, schema, other);
    DigestFixesPrefix(sha, a, |a| - 1, b, |b| - 1);
    forall k: nat | k < |chain|
      ensures chain[k] == other[k]
    {
      assert a[k] == b[k];
    }
  }
}
