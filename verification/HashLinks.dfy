/**
 * Hash-linked lists: what a head digest commits to. The audit chain, the anchor log and the
 * signed merge-anchor log are all instances.
 */
module HashLinks {
  import opened Prelude

  type Digest = string -> string

  /** One element: the text that was hashed, the link stored beside it, the stored digest. */
  datatype Link = Link(body: string, prev: Option<string>, hash: string)

  /** The stored digest recomputes; the first link is null, a later one names its predecessor. */
  ghost predicate LinkOk(sha: Digest, ls: seq<Link>, i: nat)
    requires i < |ls|
  {
    ls[i].hash == sha(ls[i].body) && ls[i].prev == if i == 0 then None else Some(ls[i - 1].hash)
  }

  ghost predicate Linked(sha: Digest, ls: seq<Link>) {
    forall i: nat :: i < |ls| ==> LinkOk(sha, ls, i)
  }

  /** No two different bodies, one from each list, have one digest. */
  ghost predicate NoCollision(sha: Digest, a: seq<Link>, b: seq<Link>) {
    forall i: nat, j: nat :: i < |a| && j < |b| && sha(a[i].body) == sha(b[j].body) ==> a[i].body == b[j].body
  }

  /** Equal bodies carry equal links: the body text includes the link. */
  ghost predicate BodyFixesPrev(a: seq<Link>, b: seq<Link>) {
    forall i: nat, j: nat :: i < |a| && j < |b| && a[i].body == b[j].body ==> a[i].prev == b[j].prev
  }

  /** Equal digests at two positions of two linked lists: the positions and all before them agree. */
  lemma {:induction false} DigestFixesPrefix(sha: Digest, a: seq<Link>, i: nat, b: seq<Link>, j: nat)
    requires Linked(sha, a) && Linked(sha, b) && BodyFixesPrev(a, b) && NoCollision(sha, a, b)
    requires i < |a| && j < |b| && a[i].hash == b[j].hash
    ensures i == j && forall k: nat :: k <= i ==> a[k] == b[k]
    decreases i
  {
    assert LinkOk(sha, a, i) && LinkOk(sha, b, j);
    assert a[i].body == b[j].body;
    if i > 0 {
      DigestFixesPrefix(sha, a, i - 1, b, j - 1);
    }
  }
}
