/**
 * How merge-govern's anchor section ends (apps/curator/src/cli.ts): what a process does with the
 * verification it ran, when it gives up waiting, and what one that is left alone achieves.
 */
module MergeOutcome {
  import opened Prelude
  import opened HashLinks
  import opened AuditChain
  import opened AuditAnchor
  import opened SignedMergeAnchor
  import opened MergeLock

  // ---------- the verdict ----------

  /** The log read back is good, and its last record, if there is one, has these parents. */
  ghost predicate GoodFor(c: Crypto, w: World, read: seq<MergeRecord>, parents: seq<string>) {
    MergeLogOk(c, Hashed(w.rows), read) &&
    (|read| > 0 ==> multiset(read[|read| - 1].body.parents) == multiset(parents))
  }

  lemma ReportOkIff(c: Crypto, w: World, read: seq<MergeRecord>, parents: seq<string>)
    ensures MergeReport(c, w.rows, read, Some(parents)).ok <==> GoodFor(c, w, read, parents)
  {
    NoMergeBreaksIffLogOk(c, Hashed(w.rows), read);
    if |read| > 0 {
      SameSetIsMultisetEquality(Last(read).body.parents, parents);
    }
  }

  /** A process that compares goes on to release with success exactly when the log it read is good for its parents. */
  lemma ComparingDecides(c: Crypto, w: World, p: nat, at: string)
    requires p < |w.procs| && w.procs[p].pc.Comparing?
    ensures NextWorld(c, w, Act(p, at)).procs[p].pc ==
            Releasing(GoodFor(c, w, w.procs[p].pc.read, w.procs[p].options.parents))
  {
    var pc := w.procs[p].pc;
    ReportOkIff(c, w, pc.read, w.procs[p].options.parents);
    ComparingStep(c, w, p, at);
    hide *;
  }

  lemma ComparingStep(c: Crypto, w: World, p: nat, at: string)
    requires p < |w.procs| && w.procs[p].pc.Comparing?
    ensures NextWorld(c, w, Act(p, at)).procs[p].pc ==
            Releasing(MergeReport(c, w.rows, w.procs[p].pc.read, Some(w.procs[p].options.parents)).ok)
  {
    hide MergeReport, NewMergeRecord, SnapshotOf, NextClock;
  }

  /** The outcome a process carries, if it has one, is success. */
  predicate NotFailed(pc: Pc) {
    (pc.Releasing? ==> pc.verified) && (pc.Finished? ==> pc.verified)
  }

  lemma ActKeepsNotFailed(c: Crypto, w: World, p: nat, at: string)
    requires Safe(c, w) && p < |w.procs| && NotFailed(w.procs[p].pc)
    ensures NotFailed(Acted(c, w, p, at).procs[p].pc)
  {
    if w.procs[p].pc.Comparing? {
      assert HolderOk(c, w, p);
      GoodLogVerifies(c, w, w.procs[p].options.parents);
    }
  }

  lemma MoveKeepsNotFailed(c: Crypto, w: World, m: Move, p: nat)
    requires Safe(c, w) && p < |w.procs| && NotFailed(w.procs[p].pc) && m != Throw(p)
    ensures |NextWorld(c, w, m).procs| == |w.procs| && NotFailed(NextWorld(c, w, m).procs[p].pc)
  {
    if m.Act? && m.p == p {
      ActKeepsNotFailed(c, w, p, m.anchoredAt);
    }
  }

  /**
   * In every interleaving without a live steal, a process in which nothing throws never ends as failed,
   * whatever the others do: the exit code of an honest merge is success.
   */
  lemma {:induction false} HonestHoldersSucceed(c: Crypto, w: World, moves: seq<Move>, p: nat)
    requires SignaturesCheck(c) && Start(w) && NoLiveSteal(c, w, moves)
    requires p < |w.procs| && Throw(p) !in moves
    ensures var end := RunFrom(c, w, moves);
            |end.procs| == |w.procs| &&
            forall verified :: end.procs[p].pc == Releasing(verified) || end.procs[p].pc == Finished(verified) ==> verified
  {
    HonestNeverFailed(c, w, moves, p);
  }

  lemma {:induction false} HonestNeverFailed(c: Crypto, w: World, moves: seq<Move>, p: nat)
    requires SignaturesCheck(c) && Start(w) && NoLiveSteal(c, w, moves)
    requires p < |w.procs| && Throw(p) !in moves
    ensures |RunFrom(c, w, moves).procs| == |w.procs| && NotFailed(RunFrom(c, w, moves).procs[p].pc)
  {
    if |moves| > 0 {
      assert forall m :: m in Init(moves) ==> m in moves;
      assert Last(moves) in moves;
      HonestNeverFailed(c, w, Init(moves), p);
      RunKeepsSafe(c, w, Init(moves));
      MoveKeepsNotFailed(c, RunFrom(c, w, Init(moves)), Last(moves), p);
    }
  }

  // ---------- one process left alone ----------

  /** The world with process p somewhere else, and this lock and log. */
  function At(w: World, p: nat, lock: Option<LockFile>, log: seq<MergeRecord>, pc: Pc): World
    requires p < |w.procs|
  {
    w.(lock := lock, log := log, procs := w.procs[p := w.procs[p].(pc := pc)])
  }

  lemma AtTwice(w: World, p: nat, lock: Option<LockFile>, log: seq<MergeRecord>, pc: Pc, lock': Option<LockFile>, log': seq<MergeRecord>, pc': Pc)
    requires p < |w.procs|
    ensures Goto(At(w, p, lock, log, pc).(lock := lock', log := log'), p, pc') == At(w, p, lock', log', pc')
  {
    assert w.procs[p := w.procs[p].(pc := pc)][p := w.procs[p].(pc := pc')] == w.procs[p := w.procs[p].(pc := pc')];
  }

  /** One more move of p, spelled out: where it starts, where it ends. */
  lemma ThenActs(c: Crypto, w: World, p: nat, at: string, n: nat, lock: Option<LockFile>, log: seq<MergeRecord>, pc: Pc,
                 lock': Option<LockFile>, log': seq<MergeRecord>, pc': Pc)
    requires p < |w.procs| && RunFrom(c, w, Alone(p, at, n)) == At(w, p, lock, log, pc)
    requires Acted(c, At(w, p, lock, log, pc), p, at) == Goto(At(w, p, lock, log, pc).(lock := lock', log := log'), p, pc')
    ensures RunFrom(c, w, Alone(p, at, n + 1)) == At(w, p, lock', log', pc')
  {
    AtTwice(w, p, lock, log, pc, lock', log', pc');
    assert Init(Alone(p, at, n + 1)) == Alone(p, at, n);
  }

  /** Process p makes n moves, nobody else any. */
  function Alone(p: nat, at: string, n: nat): seq<Move> {
    if n == 0 then [] else Alone(p, at, n - 1) + [Act(p, at)]
  }

  /** The record the section should add: next clock, the live head, the log's tip. */
  function NextRecord(c: Crypto, w: World, p: nat, at: string): MergeRecord
    requires p < |w.procs|
  {
    NewMergeRecord(c, SnapshotOf(w.rows), w.log, |w.log| + 1, w.procs[p].options.(anchoredAt := at))
  }

  /** A process that finds no lock takes it, in its own name and at the present time. */
  lemma TakesTheLock(c: Crypto, w: World, p: nat, at: string)
    requires p < |w.procs| && w.lock.None? && w.procs[p].pc == Creating
    ensures RunFrom(c, w, Alone(p, at, 1)) == At(w, p, Some(LockFile(p, w.now)), w.log, Created)
    ensures RunFrom(c, w, Alone(p, at, 2)) == At(w, p, Some(LockFile(p, w.now)), w.log, ReadingLog)
  {
    assert w.procs[p := w.procs[p].(pc := Creating)] == w.procs;
    var lock := Some(LockFile(p, w.now));
    ThenActs(c, w, p, at, 0, None, w.log, Creating, lock, w.log, Created);
    ThenActs(c, w, p, at, 1, lock, w.log, Created, lock, w.log, ReadingLog);
  }

  lemma ThenCountsAndLinks(c: Crypto, w: World, p: nat, at: string, lock: Option<LockFile>)
    requires p < |w.procs| && ClocksCount(w.log) && RunFrom(c, w, Alone(p, at, 2)) == At(w, p, lock, w.log, ReadingLog)
    ensures RunFrom(c, w, Alone(p, at, 5)) == At(w, p, lock, w.log, Writing(NextRecord(c, w, p, at)))
  {
    var clock := |w.log| + 1;
    NextClockCounts(w.log);
    ThenActs(c, w, p, at, 2, lock, w.log, ReadingLog, lock, w.log, Counting(clock));
    ThenActs(c, w, p, at, 3, lock, w.log, Counting(clock), lock, w.log, Linking(clock, SnapshotOf(w.rows)));
    ThenActs(c, w, p, at, 4, lock, w.log, Linking(clock, SnapshotOf(w.rows)), lock, w.log, Writing(NextRecord(c, w, p, at)));
  }

  lemma ThenWritesAndReads(c: Crypto, w: World, p: nat, at: string, lock: Option<LockFile>, r: MergeRecord)
    requires p < |w.procs| && RunFrom(c, w, Alone(p, at, 5)) == At(w, p, lock, w.log, Writing(r))
    ensures RunFrom(c, w, Alone(p, at, 7)) == At(w, p, lock, w.log + [r], Comparing(w.log + [r]))
  {
    ThenActs(c, w, p, at, 5, lock, w.log, Writing(r), lock, w.log + [r], Checking);
    ThenActs(c, w, p, at, 6, lock, w.log + [r], Checking, lock, w.log + [r], Comparing(w.log + [r]));
  }

  /** The log the section leaves is good for its own parents. */
  lemma ExtendedLogIsGood(c: Crypto, w: World, p: nat, at: string)
    requires SignaturesCheck(c) && p < |w.procs| && LogGood(c, w)
    ensures MergeReport(c, w.rows, w.log + [NextRecord(c, w, p, at)], Some(w.procs[p].options.parents)).ok
    ensures ClocksCount(w.log + [NextRecord(c, w, p, at)])
  {
    var r := NextRecord(c, w, p, at);
    SnapshotLive(w.rows);
    NewRecordContinues(c, Hashed(w.rows), w.log, SnapshotOf(w.rows), |w.log| + 1, w.procs[p].options.(anchoredAt := at));
    MergeLogOkSnoc(c, Hashed(w.rows), w.log, r);
    GoodLogVerifies(c, w.(log := w.log + [r]), w.procs[p].options.parents);
  }

  /**
   * A process that finds no lock and is left alone over a good log ends after nine moves as verified: one
   * record more, with the next clock, the live head and the log's tip; the lock released, nothing else changed.
   */
  lemma AloneItFinishes(c: Crypto, w: World, p: nat, at: string)
    requires SignaturesCheck(c) && p < |w.procs| && w.lock.None? && w.procs[p].pc == Creating && LogGood(c, w)
    ensures var end := RunFrom(c, w, Alone(p, at, 9));
            end == w.(log := w.log + [NextRecord(c, w, p, at)], procs := w.procs[p := w.procs[p].(pc := Finished(true))])
  {
    var lock, r := Some(LockFile(p, w.now)), NextRecord(c, w, p, at);
    var log := w.log + [r];
    TakesTheLock(c, w, p, at);
    ThenCountsAndLinks(c, w, p, at, lock);
    ThenWritesAndReads(c, w, p, at, lock, r);
    ExtendedLogIsGood(c, w, p, at);
    ThenActs(c, w, p, at, 7, lock, log, Comparing(log), lock, log, Releasing(true));
    ThenActs(c, w, p, at, 8, lock, log, Releasing(true), None, log, Finished(true));
  }

  // ---------- waiting, giving up, throwing ----------

  /** A waiter over a lock no older than 60 s gives up exactly when its deadline has come, and otherwise tries again. */
  lemma WaiterGivesUpAtItsDeadline(c: Crypto, w: World, p: nat, at: string)
    requires p < |w.procs| && w.procs[p].pc == Creating && w.lock.Some? && w.now - w.lock.value.mtime <= 60000
    ensures RunFrom(c, w, Alone(p, at, 4)) ==
            At(w, p, w.lock, w.log, if w.now >= w.procs[p].deadline then TimedOut else Creating)
  {
    assert w.procs[p := w.procs[p].(pc := Creating)] == w.procs;
    var seen := w.lock.value;
    ThenActs(c, w, p, at, 0, w.lock, w.log, Creating, w.lock, w.log, Refused);
    ThenActs(c, w, p, at, 1, w.lock, w.log, Refused, w.lock, w.log, Aged(seen));
    ThenActs(c, w, p, at, 2, w.lock, w.log, Aged(seen), w.lock, w.log, Waiting);
    ThenActs(c, w, p, at, 3, w.lock, w.log, Waiting, w.lock, w.log, if w.now >= w.procs[p].deadline then TimedOut else Creating);
  }

  /** A waiter over a lock older than that removes it and, left alone, takes the lock itself. */
  lemma WaiterTakesOverAnOldLock(c: Crypto, w: World, p: nat, at: string)
    requires p < |w.procs| && w.procs[p].pc == Creating && w.lock.Some? && w.now - w.lock.value.mtime > 60000
    ensures RunFrom(c, w, Alone(p, at, 5)) == At(w, p, Some(LockFile(p, w.now)), w.log, Created)
  {
    assert w.procs[p := w.procs[p].(pc := Creating)] == w.procs;
    var seen := w.lock.value;
    ThenActs(c, w, p, at, 0, w.lock, w.log, Creating, w.lock, w.log, Refused);
    ThenActs(c, w, p, at, 1, w.lock, w.log, Refused, w.lock, w.log, Aged(seen));
    ThenActs(c, w, p, at, 2, w.lock, w.log, Aged(seen), w.lock, w.log, Stealing(seen));
    ThenActs(c, w, p, at, 3, w.lock, w.log, Stealing(seen), None, w.log, Creating);
    ThenActs(c, w, p, at, 4, None, w.log, Creating, Some(LockFile(p, w.now)), w.log, Created);
  }

  /** A throw inside the section still releases the lock, and the process ends as failed. */
  lemma ThrowReleasesTheLock(c: Crypto, w: World, p: nat, at: string)
    requires p < |w.procs| && InSection(w.procs[p].pc) && !w.procs[p].pc.Created?
    ensures NextWorld(c, NextWorld(c, w, Throw(p)), Act(p, at)) == At(w, p, None, w.log, Finished(false))
  {
    AtTwice(w, p, w.lock, w.log, Releasing(false), None, w.log, Finished(false));
  }
}
