/** Names from which ids are derived, and the version-5 bit layout (packages/common/src/uuid-v5.ts). */
module UuidNames {
  import opened Prelude

  const NUL := '\0'

  /** The fields joined by NUL characters. */
  function Join(fields: seq<string>): string
    requires |fields| > 0
  {
    if |fields| == 1 then fields[0] else fields[0] + [NUL] + Join(fields[1..])
  }

  ghost predicate NoNul(fields: seq<string>) {
    forall f :: f in fields ==> NUL !in f
  }

  lemma CutNotBefore(a: string, x: string, b: string, y: string)
    requires NUL !in b && a + [NUL] + x == b + [NUL] + y
    ensures |b| <= |a|
  {
    assert (a + [NUL] + x)[|a|] == NUL;
    assert forall i :: 0 <= i < |b| ==> (b + [NUL] + y)[i] == b[i] && b[i] in b;
  }

  /** Two texts that agree, each cut at its first NUL, agree on both sides of the cut. */
  lemma FirstCut(a: string, x: string, b: string, y: string)
    requires NUL !in a && NUL !in b && a + [NUL] + x == b + [NUL] + y
    ensures a == b && x == y
  {
    var t, u := a + [NUL] + x, b + [NUL] + y;
    CutNotBefore(a, x, b, y);
    CutNotBefore(b, y, a, x);
    assert a == t[..|a|] && b == u[..|b|];
    assert x == t[|a| + 1..] && y == u[|b| + 1..];
  }

  lemma NulInJoin(xs: seq<string>)
    requires |xs| > 1
    ensures NUL in Join(xs)
  {
    assert Join(xs)[|xs[0]|] == NUL;
  }

  /** Without NULs in the fields a joined name is read back in one way only. */
  lemma {:induction false} JoinInjective(xs: seq<string>, ys: seq<string>)
    requires |xs| > 0 && |ys| > 0 && NoNul(xs) && NoNul(ys) && Join(xs) == Join(ys)
    ensures xs == ys
  {
    assert xs[0] in xs && ys[0] in ys;
    if |xs| > 1 {
      NulInJoin(xs);
    }
    if |ys| > 1 {
      NulInJoin(ys);
    }
    if |xs| > 1 && |ys| > 1 {
      FirstCut(xs[0], Join(xs[1..]), ys[0], Join(ys[1..]));
      JoinInjective(xs[1..], ys[1..]);
      assert xs == [xs[0]] + xs[1..] && ys == [ys[0]] + ys[1..];
    }
  }

  /** The things that get derived ids. */
  datatype Thing =
    | Candidate(workspaceId: string, relPath: string, bodySha256: string)
    | Memory(candidateId: string, contentHash: string)
    | AuditEvent(memoryId: string, action: string, discriminator: string)
    | PolicyEvaluation(evaluatedId: string, ruleId: string, evaluation: string)
    | MemoryLink(sourceId: string, targetId: string, linkType: string)

  function Fields(t: Thing): seq<string> {
    match t
    case Candidate(workspaceId, relPath, bodySha256) => [workspaceId, relPath, bodySha256]
    case Memory(candidateId, contentHash) => ["memory", candidateId, contentHash]
    case AuditEvent(memoryId, action, discriminator) => ["audit", memoryId, action, discriminator]
    case PolicyEvaluation(memoryId, ruleId, discriminator) => ["policy", memoryId, ruleId, discriminator]
    case MemoryLink(source, target, linkType) => ["link", source, target, linkType]
  }

  function Name(t: Thing): string {
    Join(Fields(t))
  }

  /** A candidate of a workspace called "memory" reads like a memory: the one untagged name space. */
  predicate Confused(a: Thing, b: Thing) {
    a.Candidate? && b.Memory? && a.workspaceId == "memory" && a.relPath == b.candidateId && a.bodySha256 == b.contentHash
  }

  /**
   * Names without NULs in their fields tell things apart, within each kind and across kinds, except
   * that candidates carry no tag: exactly then can a candidate and a memory share a name, and so an id.
   */
  lemma NamesTellApart(a: Thing, b: Thing)
    requires NoNul(Fields(a)) && NoNul(Fields(b))
    ensures Name(a) == Name(b) <==> a == b || Confused(a, b) || Confused(b, a)
  {
    if Name(a) == Name(b) {
      JoinInjective(Fields(a), Fields(b));
      var x, y := Fields(a), Fields(b);
      assert x[0] == y[0] && x[1] == y[1] && x[2] == y[2] && |x| == |y| && (|x| == 4 ==> x[3] == y[3]);
      assert "audit"[0] == 'a' && "policy"[0] == 'p' && "link"[0] == 'l';
    }
  }

  /** A NUL inside a field breaks this: two different link names with one text. */
  lemma NulMakesNamesCollide(s: string, t: string, u: string, v: string)
    ensures Name(MemoryLink(s + [NUL] + t, u, v)) == Name(MemoryLink(s, t + [NUL] + u, v))
  {
    JoinFour("link", s + [NUL] + t, u, v);
    JoinFour("link", s, t + [NUL] + u, v);
    assert (s + [NUL] + t) + [NUL] + u == s + [NUL] + (t + [NUL] + u);
    assert "link" + [NUL] + (s + [NUL] + t) + [NUL] + u == "link" + [NUL] + s + [NUL] + (t + [NUL] + u);
  }

  lemma JoinFour(a: string, b: string, c: string, d: string)
    ensures Join([a, b, c, d]) == a + [NUL] + b + [NUL] + c + [NUL] + d
  {
    assert [a, b, c, d][1..] == [b, c, d] && [b, c, d][1..] == [c, d] && [c, d][1..] == [d];
    assert Join([c, d]) == c + [NUL] + d;
    assert Join([b, c, d]) == b + [NUL] + (c + [NUL] + d);
    assert Join([a, b, c, d]) == a + [NUL] + (b + [NUL] + (c + [NUL] + d));
  }

  lemma JoinThree(a: string, b: string, c: string)
    ensures Join([a, b, c]) == a + [NUL] + b + [NUL] + c
  {
    assert [a, b, c][1..] == [b, c] && [b, c][1..] == [c];
    assert Join([b, c]) == b + [NUL] + c;
    assert Join([a, b, c]) == a + [NUL] + (b + [NUL] + c);
  }

  /** The names, spelled out: every kind but candidates begins with its tag. */
  lemma NamesSpelledOut(a: string, b: string, c: string)
    ensures Name(Candidate(a, b, c)) == a + "\0" + b + "\0" + c
    ensures Name(Memory(a, b)) == "memory" + "\0" + a + "\0" + b
    ensures Name(AuditEvent(a, b, c)) == "audit" + "\0" + a + "\0" + b + "\0" + c
    ensures Name(PolicyEvaluation(a, b, c)) == "policy" + "\0" + a + "\0" + b + "\0" + c
    ensures Name(MemoryLink(a, b, c)) == "link" + "\0" + a + "\0" + b + "\0" + c
  {
    JoinThree(a, b, c);
    JoinThree("memory", a, b);
    JoinFour("audit", a, b, c);
    JoinFour("policy", a, b, c);
    JoinFour("link", a, b, c);
  }

  /** The version-5 layout, patched into the digest's bytes: version nibble 5, variant bits 10, all other bits kept. */
  method PatchVersion5(bytes: array<bv8>)
    requires bytes.Length == 16
    modifies bytes
    ensures bytes[6] & 0xf0 == 0x50 && bytes[6] & 0x0f == old(bytes[6]) & 0x0f
    ensures bytes[8] & 0xc0 == 0x80 && bytes[8] & 0x3f == old(bytes[8]) & 0x3f
    ensures forall i :: 0 <= i < 16 && i != 6 && i != 8 ==> bytes[i] == old(bytes[i])
  {
    bytes[6] := (bytes[6] & 0x0f) | 0x50;
    bytes[8] := (bytes[8] & 0x3f) | 0x80;
  }
}
