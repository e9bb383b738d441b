/**
 * Anchoring over whole runs. Any number of append calls work beside any number of inserts: a call
 * reads the chain, later reads the log, later still writes, and other callers may do anything in
 * between.
 */
module AnchorRuns {
  import opened Prelude
  import opened HashLinks
  import opened AuditChain
  import opened AuditVerify
  import opened AuditRepository
  import opened AuditAnchor
  import opened AnchorCommitment

  /** Where an append call is: nothing read, the chain read, the log read too. */
  datatype Call =
    | Resting
    | HasChain(snap: Snapshot)
    | HasLog(snap: Snapshot, seen: seq<AnchorRecord>)

  datatype State = State(rows: seq<Row>, log: seq<AnchorRecord>, calls: seq<Call>)

  datatype Step =
    | Insert(e: Event)
    | ReadChain(k: nat)
    | ReadLog(k: nat)
    | WriteAnchor(k: nat, tenantId: string, now: string)
    | Abandon(k: nat)

  function Start(n: nat): State {
    State([], [], seq(n, i => Resting))
  }

  /** What a call that has read everything appends to the log as it now is. */
  function Written(sha: Digest, log: seq<AnchorRecord>, call: Call, tenantId: string, now: string): seq<AnchorRecord>
    requires call.HasLog?
  {
    if AlreadyAnchored(call.seen, call.snap) then log else log + [NewAnchor(sha, call.seen, call.snap, tenantId, now)]
  }

  function CallNext(sha: Digest, s: State, k: nat, step: Step): State
    requires k < |s.calls|
  {
    match step
    case ReadChain(_) => if s.calls[k].Resting? then s.(calls := s.calls[k := HasChain(SnapshotOf(s.rows))]) else s
    case ReadLog(_) => if s.calls[k].HasChain? then s.(calls := s.calls[k := HasLog(s.calls[k].snap, s.log)]) else s
    case WriteAnchor(_, tenantId, now) =>
      if s.calls[k].HasLog?
        then s.(log := Written(sha, s.log, s.calls[k], tenantId, now), calls := s.calls[k := Resting]) else s
    case Abandon(_) => s.(calls := s.calls[k := Resting])
    case Insert(_) => s
  }

  function Next(sha: Digest, s: State, step: Step): State {
    match step
    case Insert(e) => s.(rows := s.rows + [NewRow(sha, s.rows, e)])
    case _ => if step.k < |s.calls| then CallNext(sha, s, step.k, step) else s
  }

  function Run(sha: Digest, n: nat, steps: seq<Step>): State {
    if |steps| == 0 then Start(n) else Next(sha, Run(sha, n, Init(steps)), Last(steps))
  }

  // ---------- what every run keeps ----------

  /** A snapshot of some prefix of the rows. */
  predicate Froze(rows: seq<Row>, snap: Snapshot) {
    snap.count <= |rows| && snap.head == HeadOf(rows[..snap.count])
  }

  predicate FrozeRecord(rows: seq<Row>, a: AnchorRecord) {
    a.body.chainedRows >= 0 && Froze(rows, Snapshot(a.body.chainedRows, a.body.chainHead))
  }

  ghost predicate AllFroze(rows: seq<Row>, log: seq<AnchorRecord>) {
    forall a :: a in log ==> FrozeRecord(rows, a)
  }

  /** What a call has read was once there. */
  ghost predicate CallOk(rows: seq<Row>, log: seq<AnchorRecord>, call: Call) {
    match call
    case Resting => true
    case HasChain(snap) => Froze(rows, snap)
    case HasLog(snap, seen) => Froze(rows, snap) && seen <= log
  }

  ghost predicate Inv(sha: Digest, s: State) {
    Breaks(sha, s.rows) == [] && Hashed(s.rows) == s.rows && AllFroze(s.rows, s.log) &&
    forall k: nat :: k < |s.calls| ==> CallOk(s.rows, s.log, s.calls[k])
  }

  lemma FrozeGrows(rows: seq<Row>, row: Row, snap: Snapshot)
    requires Froze(rows, snap)
    ensures Froze(rows + [row], snap)
  {
    assert (rows + [row])[..snap.count] == rows[..snap.count];
  }

  lemma InsertKeepsInv(sha: Digest, s: State, e: Event)
    requires Inv(sha, s)
    ensures Inv(sha, Next(sha, s, Insert(e)))
  {
    var row := NewRow(sha, s.rows, e);
    InsertKeepsClean(sha, s.rows, e);
    assert Init(s.rows + [row]) == s.rows;
    forall a | a in s.log
      ensures FrozeRecord(s.rows + [row], a)
    {
      FrozeGrows(s.rows, row, Snapshot(a.body.chainedRows, a.body.chainHead));
    }
    forall k: nat | k < |s.calls|
      ensures CallOk(s.rows + [row], s.log, s.calls[k])
    {
      assert CallOk(s.rows, s.log, s.calls[k]);
      if !s.calls[k].Resting? {
        FrozeGrows(s.rows, row, s.calls[k].snap);
      }
    }
  }

  lemma SnapshotFreezesAll(rows: seq<Row>)
    requires Hashed(rows) == rows
    ensures Froze(rows, SnapshotOf(rows)) && SnapshotOf(rows).count == |rows|
  {
    assert rows[..|rows|] == rows;
  }

  lemma CallKeepsInv(sha: Digest, s: State, k: nat, step: Step)
    requires Inv(sha, s) && k < |s.calls|
    ensures Inv(sha, CallNext(sha, s, k, step))
  {
    assert CallOk(s.rows, s.log, s.calls[k]);
    SnapshotFreezesAll(s.rows);
    var s' := CallNext(sha, s, k, step);
    forall j: nat | j < |s'.calls|
      ensures CallOk(s'.rows, s'.log, s'.calls[j])
    {
      assert CallOk(s.rows, s.log, s.calls[j]);
    }
  }

  lemma {:induction false} RunKeepsInv(sha: Digest, n: nat, steps: seq<Step>)
    ensures Inv(sha, Run(sha, n, steps)) && |Run(sha, n, steps).calls| == n
  {
    if |steps| > 0 {
      RunKeepsInv(sha, n, Init(steps));
      var s, step := Run(sha, n, Init(steps)), Last(steps);
      if step.Insert? {
        InsertKeepsInv(sha, s, step.e);
      } else if step.k < |s.calls| {
        CallKeepsInv(sha, s, step.k, step);
      }
    }
  }

  /** A frozen snapshot agrees with the live chain. */
  lemma FrozenFinding(sha: Digest, rows: seq<Row>, snap: Snapshot, body: AnchorBody)
    requires HashedRows(rows) && Froze(rows, snap) && body.chainedRows == snap.count && body.chainHead == snap.head
    ensures HistoryFinding(rows, body) == None
  {
    if snap.count > 0 {
      var top := rows[snap.count - 1];
      assert top in rows;
      assert Last(rows[..snap.count]) == top;
    }
  }

  ghost predicate HashedRows(rows: seq<Row>) {
    forall r :: r in rows ==> r.entryHash.Some?
  }

  lemma {:induction false} HashedRowsOf(rows: seq<Row>)
    ensures HashedRows(Hashed(rows))
  {
    if |rows| > 0 {
      HashedRowsOf(Init(rows));
    }
  }

  // ---------- exactly when the log verifies ----------

  lemma LinksSnoc(sha: Digest, log: seq<AnchorRecord>, a: AnchorRecord)
    ensures LinkedLog(sha, log + [a]) <==> LinkedLog(sha, log) && !HashBad(sha, a) && a.body.prevAnchorHash == LogTip(log)
  {
    var longer, n := log + [a], |log|;
    forall i: nat | i < n
      ensures LinkOk(sha, AnchorLinks(longer), i) == LinkOk(sha, AnchorLinks(log), i)
    {
    }
    assert LinkOk(sha, AnchorLinks(longer), n) == (!HashBad(sha, a) && a.body.prevAnchorHash == LogTip(log));
  }

  lemma RecordOkIsLinkOk(sha: Digest, rows: seq<Row>, log: seq<AnchorRecord>, i: nat)
    requires HashedRows(rows) && i < |log| && FrozeRecord(rows, log[i])
    ensures RecordOk(sha, rows, log, i) == LinkOk(sha, AnchorLinks(log), i)
  {
    FrozenFinding(sha, rows, Snapshot(log[i].body.chainedRows, log[i].body.chainHead), log[i].body);
  }

  lemma LogOkIsLinked(sha: Digest, rows: seq<Row>, log: seq<AnchorRecord>)
    requires HashedRows(rows) && AllFroze(rows, log)
    ensures LogOk(sha, rows, log) <==> LinkedLog(sha, log)
  {
    forall i: nat | i < |log|
      ensures RecordOk(sha, rows, log, i) == LinkOk(sha, AnchorLinks(log), i)
    {
      assert FrozeRecord(rows, log[i]);
      RecordOkIsLinkOk(sha, rows, log, i);
    }
  }

  /** In a run only links can go wrong: chain, hashes and frozen heads are always right. */
  lemma OkIffLinks(sha: Digest, s: State)
    requires Inv(sha, s)
    ensures AnchorReport(sha, s.rows, s.log).ok <==> LinkedLog(sha, s.log)
  {
    NoAnchorBreaksIffLogOk(sha, s.rows, s.log);
    HashedRowsOf(s.rows);
    LogOkIsLinked(sha, s.rows, s.log);
  }

  /** This write appends a record to a log that grew since the call read it. */
  predicate StaleAppend(s: State, step: Step) {
    step.WriteAnchor? && step.k < |s.calls| && s.calls[step.k].HasLog? &&
    !AlreadyAnchored(s.calls[step.k].seen, s.calls[step.k].snap) && s.calls[step.k].seen != s.log
  }

  predicate NoStaleAppend(sha: Digest, n: nat, steps: seq<Step>) {
    |steps| == 0 || (NoStaleAppend(sha, n, Init(steps)) && !StaleAppend(Run(sha, n, Init(steps)), Last(steps)))
  }

  /** Without collisions a linked log that grew has another tip. */
  lemma GrownLogHasAnotherTip(sha: Digest, seen: seq<AnchorRecord>, log: seq<AnchorRecord>)
    requires LinkedLog(sha, log) && NoCollision(sha, AnchorLinks(log), AnchorLinks(log)) && seen < log
    ensures LogTip(seen) != LogTip(log)
  {
    if |seen| > 0 && LogTip(seen) == LogTip(log) {
      AnchorBodiesFixPrev(log, log);
      assert Last(seen) == log[|seen| - 1];
      DigestFixesPrefix(sha, AnchorLinks(log), |seen| - 1, AnchorLinks(log), |log| - 1);
    }
  }

  lemma NoCollisionBefore(sha: Digest, log: seq<AnchorRecord>, longer: seq<AnchorRecord>)
    requires log <= longer && NoCollision(sha, AnchorLinks(longer), AnchorLinks(longer))
    ensures NoCollision(sha, AnchorLinks(log), AnchorLinks(log))
  {
    forall i: nat, j: nat | i < |log| && j < |log| && sha(AnchorLinks(log)[i].body) == sha(AnchorLinks(log)[j].body)
      ensures AnchorLinks(log)[i].body == AnchorLinks(log)[j].body
    {
      assert AnchorLinks(longer)[i] == AnchorLinks(log)[i] && AnchorLinks(longer)[j] == AnchorLinks(log)[j];
    }
  }

  /** One write: the links stay good exactly when the call appends nothing or had read the log as it is. */
  lemma WriteKeepsLinksIff(sha: Digest, log: seq<AnchorRecord>, call: Call, tenantId: string, now: string)
    requires call.HasLog? && call.seen <= log && LinkedLog(sha, log) && NoCollision(sha, AnchorLinks(log), AnchorLinks(log))
    ensures LinkedLog(sha, Written(sha, log, call, tenantId, now)) <==> AlreadyAnchored(call.seen, call.snap) || call.seen == log
  {
    if !AlreadyAnchored(call.seen, call.snap) {
      LinksSnoc(sha, log, NewAnchor(sha, call.seen, call.snap, tenantId, now));
      if call.seen != log {
        GrownLogHasAnotherTip(sha, call.seen, log);
      }
    }
  }

  lemma BrokenStaysBroken(sha: Digest, log: seq<AnchorRecord>, call: Call, tenantId: string, now: string)
    requires call.HasLog? && !LinkedLog(sha, log)
    ensures !LinkedLog(sha, Written(sha, log, call, tenantId, now))
  {
    if !AlreadyAnchored(call.seen, call.snap) {
      LinksSnoc(sha, log, NewAnchor(sha, call.seen, call.snap, tenantId, now));
    }
  }

  lemma StepLinksIff(sha: Digest, s: State, step: Step)
    requires Inv(sha, s) && NoCollision(sha, AnchorLinks(s.log), AnchorLinks(s.log))
    ensures LinkedLog(sha, Next(sha, s, step).log) <==> LinkedLog(sha, s.log) && !StaleAppend(s, step)
  {
    if step.WriteAnchor? && step.k < |s.calls| && s.calls[step.k].HasLog? {
      var call := s.calls[step.k];
      assert CallOk(s.rows, s.log, call);
      if LinkedLog(sha, s.log) {
        WriteKeepsLinksIff(sha, s.log, call, step.tenantId, step.now);
      } else {
        BrokenStaysBroken(sha, s.log, call, step.tenantId, step.now);
      }
    }
  }

  lemma {:induction false} LinksIffNoStaleAppend(sha: Digest, n: nat, steps: seq<Step>)
    requires NoCollision(sha, AnchorLinks(Run(sha, n, steps).log), AnchorLinks(Run(sha, n, steps).log))
    ensures LinkedLog(sha, Run(sha, n, steps).log) <==> NoStaleAppend(sha, n, steps)
  {
    if |steps| > 0 {
      var s, step := Run(sha, n, Init(steps)), Last(steps);
      LogOnlyGrows(sha, s, step);
      NoCollisionBefore(sha, s.log, Run(sha, n, steps).log);
      LinksIffNoStaleAppend(sha, n, Init(steps));
      RunKeepsInv(sha, n, Init(steps));
      StepLinksIff(sha, s, step);
    }
  }

  lemma LogOnlyGrows(sha: Digest, s: State, step: Step)
    ensures s.rows <= Next(sha, s, step).rows && s.log <= Next(sha, s, step).log
  {
  }

  /**
   * Over every run from an empty store, without collisions in the log: verification passes exactly
   * when no call appended to a log that had grown since it read it. The check a caller could make,
   * and appendAnchor does not, is to compare the log before writing.
   */
  lemma VerifiesIffNoStaleAppend(sha: Digest, n: nat, steps: seq<Step>)
    requires NoCollision(sha, AnchorLinks(Run(sha, n, steps).log), AnchorLinks(Run(sha, n, steps).log))
    ensures var s := Run(sha, n, steps);
            AnchorReport(sha, s.rows, s.log).ok <==> NoStaleAppend(sha, n, steps)
  {
    RunKeepsInv(sha, n, steps);
    OkIffLinks(sha, Run(sha, n, steps));
    LinksIffNoStaleAppend(sha, n, steps);
  }

  lemma {:induction false} NoStaleAppendLinks(sha: Digest, n: nat, steps: seq<Step>)
    requires NoStaleAppend(sha, n, steps)
    ensures LinkedLog(sha, Run(sha, n, steps).log)
  {
    if |steps| > 0 {
      NoStaleAppendLinks(sha, n, Init(steps));
      var s, step := Run(sha, n, Init(steps)), Last(steps);
      if step.WriteAnchor? && step.k < |s.calls| && s.calls[step.k].HasLog? {
        var call := s.calls[step.k];
        LinksSnoc(sha, s.log, NewAnchor(sha, call.seen, call.snap, step.tenantId, step.now));
      }
    }
  }

  /** And whatever the digest does: without a stale append verification passes. */
  lemma NoStaleAppendVerifies(sha: Digest, n: nat, steps: seq<Step>)
    requires NoStaleAppend(sha, n, steps)
    ensures var s := Run(sha, n, steps);
            AnchorReport(sha, s.rows, s.log).ok
  {
    RunKeepsInv(sha, n, steps);
    OkIffLinks(sha, Run(sha, n, steps));
    NoStaleAppendLinks(sha, n, steps);
  }

  /**
   * The race of two calls that read the same log: when both have written, the log verifies exactly
   * when the no-op guard stopped one of them.
   */
  lemma RaceIsHarmlessIff(sha: Digest, s: State, j: nat, k: nat, write: Step, late: Step)
    requires Inv(sha, s) && LinkedLog(sha, s.log) && j < |s.calls| && k < |s.calls| && j != k
    requires s.calls[j].HasLog? && s.calls[j].seen == s.log && s.calls[k].HasLog? && s.calls[k].seen == s.log
    requires write.WriteAnchor? && write.k == j && late.WriteAnchor? && late.k == k
    requires var log := Next(sha, s, write).log; NoCollision(sha, AnchorLinks(log), AnchorLinks(log))
    ensures LinkedLog(sha, Next(sha, Next(sha, s, write), late).log) <==>
            AlreadyAnchored(s.log, s.calls[j].snap) || AlreadyAnchored(s.log, s.calls[k].snap)
  {
    var s' := Next(sha, s, write);
    LogOnlyGrows(sha, s, write);
    NoCollisionBefore(sha, s.log, s'.log);
    StepLinksIff(sha, s, write);
    CallKeepsInv(sha, s, j, write);
    StepLinksIff(sha, s', late);
  }

  /** Two calls that read an empty log, and write. */
  function TwoCalls(tenantId: string, now: string): seq<Step> {
    [ReadChain(0), ReadChain(1), ReadLog(0), ReadLog(1)] + [WriteAnchor(0, tenantId, now)] + [WriteAnchor(1, tenantId, now)]
  }

  lemma TwoReads(sha: Digest)
    ensures var empty := HasLog(Snapshot(0, ""), []);
            Run(sha, 2, [ReadChain(0), ReadChain(1), ReadLog(0), ReadLog(1)]) == State([], [], [empty, empty])
  {
    var r0, r1, l0, l1 := ReadChain(0), ReadChain(1), ReadLog(0), ReadLog(1);
    var read := HasChain(Snapshot(0, ""));
    assert Init([r0, r1, l0, l1]) == [r0, r1, l0] && Init([r0, r1, l0]) == [r0, r1] && Init([r0, r1]) == [r0] && Init([r0]) == [];
    assert Start(2).calls == [Resting, Resting];
    assert Run(sha, 2, [r0]) == State([], [], [read, Resting]);
    assert Run(sha, 2, [r0, r1]) == State([], [], [read, read]);
    assert Run(sha, 2, [r0, r1, l0]) == State([], [], [HasLog(Snapshot(0, ""), []), read]);
  }

  lemma RunSnoc(sha: Digest, n: nat, steps: seq<Step>, step: Step)
    ensures Run(sha, n, steps + [step]) == Next(sha, Run(sha, n, steps), step)
  {
    assert Init(steps + [step]) == steps;
  }

  /** A call that read nothing appends the first record again and again. */
  lemma EmptyCallWrites(sha: Digest, s: State, k: nat, tenantId: string, now: string)
    requires k < |s.calls| && s.calls[k] == HasLog(Snapshot(0, ""), [])
    ensures Next(sha, s, WriteAnchor(k, tenantId, now)) ==
            State(s.rows, s.log + [NewAnchor(sha, [], Snapshot(0, ""), tenantId, now)], s.calls[k := Resting])
  {
  }

  lemma TwoWrites(sha: Digest, tenantId: string, now: string)
    ensures var a := NewAnchor(sha, [], Snapshot(0, ""), tenantId, now);
            Run(sha, 2, TwoCalls(tenantId, now)).log == [a] + [a]
  {
    var bothRead := [ReadChain(0), ReadChain(1), ReadLog(0), ReadLog(1)];
    TwoReads(sha);
    RunSnoc(sha, 2, bothRead, WriteAnchor(0, tenantId, now));
    EmptyCallWrites(sha, Run(sha, 2, bothRead), 0, tenantId, now);
    RunSnoc(sha, 2, bothRead + [WriteAnchor(0, tenantId, now)], WriteAnchor(1, tenantId, now));
    EmptyCallWrites(sha, Run(sha, 2, bothRead + [WriteAnchor(0, tenantId, now)]), 1, tenantId, now);
  }

  /** Overlapping appends on an empty log leave a log that does not verify, whatever the digest. */
  lemma OverlappingAppendsBreakTheLog(sha: Digest, tenantId: string, now: string)
    ensures var s := Run(sha, 2, TwoCalls(tenantId, now));
            |s.log| == 2 && !AnchorReport(sha, s.rows, s.log).ok
  {
    var a := NewAnchor(sha, [], Snapshot(0, ""), tenantId, now);
    TwoWrites(sha, tenantId, now);
    LinksSnoc(sha, [a], a);
    RunKeepsInv(sha, 2, TwoCalls(tenantId, now));
    OkIffLinks(sha, Run(sha, 2, TwoCalls(tenantId, now)));
  }

  // ---------- one call at a time ----------

  /** A call reads the chain only while no other call is under way. */
  predicate Overlaps(s: State, step: Step) {
    step.ReadChain? && step.k < |s.calls| && exists j :: 0 <= j < |s.calls| && j != step.k && !s.calls[j].Resting?
  }

  predicate OneAtATime(sha: Digest, n: nat, steps: seq<Step>) {
    |steps| == 0 || (OneAtATime(sha, n, Init(steps)) && !Overlaps(Run(sha, n, Init(steps)), Last(steps)))
  }

  ghost predicate CountsBelow(log: seq<AnchorRecord>, n: nat) {
    forall a :: a in log ==> a.body.chainedRows <= n
  }

  /** Anchored row counts strictly increase along the log. */
  ghost predicate CountsIncrease(log: seq<AnchorRecord>) {
    forall i: nat, j: nat :: i < j < |log| ==> log[i].body.chainedRows < log[j].body.chainedRows
  }

  /** The one call under way is ahead of the log, and has seen it as it is. */
  ghost predicate Alone(s: State) {
    CountsIncrease(s.log) && CountsBelow(s.log, |s.rows|) &&
    (forall j: nat, k: nat :: j < |s.calls| && k < |s.calls| && !s.calls[j].Resting? && !s.calls[k].Resting? ==> j == k) &&
    forall k: nat :: k < |s.calls| && !s.calls[k].Resting? ==>
      CountsBelow(s.log, s.calls[k].snap.count) && (s.calls[k].HasLog? ==> s.calls[k].seen == s.log)
  }

  /** A snapshot that is new to the log counts more rows than any record. */
  lemma NewSnapshotCountsMore(rows: seq<Row>, log: seq<AnchorRecord>, snap: Snapshot)
    requires AllFroze(rows, log) && CountsIncrease(log) && Froze(rows, snap) && CountsBelow(log, snap.count)
    requires !AlreadyAnchored(log, snap)
    ensures forall i: nat :: i < |log| ==> log[i].body.chainedRows < snap.count
  {
    if |log| > 0 {
      var n := |log| - 1;
      assert Last(log) == log[n] && log[n] in log;
      assert FrozeRecord(rows, log[n]);
      assert log[n].body.chainedRows < snap.count;
    }
  }

  lemma InsertKeepsAlone(sha: Digest, s: State, e: Event)
    requires Alone(s)
    ensures Alone(Next(sha, s, Insert(e)))
  {
  }

  lemma ReadKeepsAlone(sha: Digest, s: State, k: nat, step: Step)
    requires Inv(sha, s) && Alone(s) && k < |s.calls|
    requires (step.ReadChain? || step.ReadLog? || step.Abandon?) && !Overlaps(s, step) && step.k == k
    ensures Alone(CallNext(sha, s, k, step))
  {
    SnapshotFreezesAll(s.rows);
  }

  lemma WriteKeepsAlone(sha: Digest, s: State, k: nat, step: Step)
    requires Inv(sha, s) && Alone(s) && k < |s.calls| && step.WriteAnchor? && step.k == k
    ensures Alone(CallNext(sha, s, k, step)) && !StaleAppend(s, step)
  {
    assert CallOk(s.rows, s.log, s.calls[k]);
    if s.calls[k].HasLog? && !AlreadyAnchored(s.log, s.calls[k].snap) {
      NewSnapshotCountsMore(s.rows, s.log, s.calls[k].snap);
    }
  }

  lemma CallKeepsAlone(sha: Digest, s: State, k: nat, step: Step)
    requires Inv(sha, s) && Alone(s) && k < |s.calls| && !Overlaps(s, step) && !step.Insert? && step.k == k
    ensures Alone(CallNext(sha, s, k, step)) && !StaleAppend(s, step)
  {
    if step.WriteAnchor? {
      WriteKeepsAlone(sha, s, k, step);
    } else {
      ReadKeepsAlone(sha, s, k, step);
    }
  }

  lemma {:induction false} OneAtATimeIsAlone(sha: Digest, n: nat, steps: seq<Step>)
    requires OneAtATime(sha, n, steps)
    ensures Alone(Run(sha, n, steps)) && NoStaleAppend(sha, n, steps)
  {
    if |steps| > 0 {
      OneAtATimeIsAlone(sha, n, Init(steps));
      RunKeepsInv(sha, n, Init(steps));
      var s, step := Run(sha, n, Init(steps)), Last(steps);
      if step.Insert? {
        InsertKeepsAlone(sha, s, step.e);
      } else if step.k < |s.calls| {
        CallKeepsAlone(sha, s, step.k, step);
      }
    }
  }

  /**
   * With one append call at a time, beside any number of inserts: verification passes, and no two
   * records witness the same number of rows: counts strictly increase, so no (head, count) pair is
   * repeated.
   */
  lemma AnchoringIsSound(sha: Digest, n: nat, steps: seq<Step>)
    requires OneAtATime(sha, n, steps)
    ensures var s := Run(sha, n, steps);
            AnchorReport(sha, s.rows, s.log).ok && CountsIncrease(s.log)
  {
    OneAtATimeIsAlone(sha, n, steps);
    NoStaleAppendVerifies(sha, n, steps);
  }

  /** A single caller is always one at a time. */
  lemma {:induction false} OneCallerNeverOverlaps(sha: Digest, steps: seq<Step>)
    ensures OneAtATime(sha, 1, steps)
  {
    if |steps| > 0 {
      OneCallerNeverOverlaps(sha, Init(steps));
      RunKeepsInv(sha, 1, Init(steps));
    }
  }

  /** Rows and records are never changed or removed: a longer run extends what a shorter one left. */
  lemma {:induction false} RunsOnlyExtend(sha: Digest, n: nat, steps: seq<Step>, more: seq<Step>)
    ensures Run(sha, n, steps).rows <= Run(sha, n, steps + more).rows
    ensures Run(sha, n, steps).log <= Run(sha, n, steps + more).log
  {
    if |more| == 0 {
      assert steps + more == steps;
    } else {
      RunsOnlyExtend(sha, n, steps, Init(more));
      assert Init(steps + more) == steps + Init(more);
      LogOnlyGrows(sha, Run(sha, n, steps + Init(more)), Last(more));
    }
  }

  // ---------- a call nobody disturbs ----------

  /** Reading the chain, reading the log and writing with nothing in between is one append: the log's own operation. */
  lemma UndisturbedCallAppends(sha: Digest, n: nat, steps: seq<Step>, k: nat, tenantId: string, now: string)
    requires k < |Run(sha, n, steps).calls| && Run(sha, n, steps).calls[k].Resting?
    ensures var s, done := Run(sha, n, steps), Run(sha, n, steps + [ReadChain(k)] + [ReadLog(k)] + [WriteAnchor(k, tenantId, now)]);
            done.rows == s.rows && done.calls == s.calls &&
            done.log == Appended(sha, s.log, SnapshotOf(s.rows), tenantId, now)
  {
    var s := Run(sha, n, steps);
    var snap := SnapshotOf(s.rows);
    RunSnoc(sha, n, steps, ReadChain(k));
    RunSnoc(sha, n, steps + [ReadChain(k)], ReadLog(k));
    RunSnoc(sha, n, steps + [ReadChain(k)] + [ReadLog(k)], WriteAnchor(k, tenantId, now));
    assert s.calls[k := HasChain(snap)][k := HasLog(snap, s.log)][k := Resting] == s.calls;
  }
}
