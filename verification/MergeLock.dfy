/**
 * The anchor section of merge-govern (apps/curator/src/cli.ts): any number of processes contend
 * for one lock file, each then reads the log, mints the next Lamport clock, appends, verifies
 * and releases. Creating the lock file, writing into it, each stat, clock reading, log read, chain
 * read, append and unlink are separate steps, so steps of different processes interleave freely;
 * processes may also crash or throw anywhere.
 */
module MergeLock {
  import opened Prelude
  import opened HashLinks
  import opened AuditChain
  import opened AuditRepository
  import opened AuditAnchor
  import opened AnchorRuns
  import opened SignedMergeAnchor

  const ANCHOR_LOCK_STALE_MS := 60000

  datatype LockFile = LockFile(pid: nat, mtime: int)

  datatype Pc =
    | Creating                             // about to create the lock file exclusively
    | Created                              // created; about to write the pid into it and close it
    | Refused                              // it exists; about to stat it
    | Aged(seen: LockFile)                 // its mtime read; about to read the clock
    | Stealing(seen: LockFile)             // judged stale; about to unlink whatever is there then
    | Waiting                              // judged live; about to look at the deadline
    | ReadingLog                           // lock created; about to read the log for the clock
    | Counting(clock: int)                 // about to read the chain
    | Linking(clock: int, snap: Snapshot)  // about to read the log again, for the link
    | Writing(record: MergeRecord)         // about to append
    | Checking                             // about to read the log back
    | Comparing(read: seq<MergeRecord>)    // about to read the chain and compare
    | Releasing(verified: bool)            // about to unlink the lock file
    | Finished(verified: bool)
    | TimedOut
    | Crashed

  datatype Process = Process(options: AppendOptions, deadline: int, pc: Pc)

  datatype World = World(now: int, lock: Option<LockFile>, rows: seq<Row>, log: seq<MergeRecord>, procs: seq<Process>)

  datatype Move =
    | Act(p: nat, anchoredAt: string)
    | Throw(p: nat)
    | PidWriteFails(p: nat)
    | Crash(p: nat)
    | Tick(ms: nat)
    | AuditInsert(e: Event)

  /** From creating the lock file to releasing it. */
  predicate InSection(pc: Pc) {
    pc.Created? || pc.ReadingLog? || pc.Counting? || pc.Linking? || pc.Writing? || pc.Checking? || pc.Comparing? || pc.Releasing?
  }

  function NextClock(log: seq<MergeRecord>): int {
    if |log| > 0 then Last(log).body.lamportClock + 1 else 1
  }

  function Goto(w: World, p: nat, pc: Pc): World
    requires p < |w.procs|
  {
    w.(procs := w.procs[p := w.procs[p].(pc := pc)])
  }

  function Acted(c: Crypto, w: World, p: nat, anchoredAt: string): World
    requires p < |w.procs|
  {
    var o := w.procs[p].options;
    match w.procs[p].pc
    case Creating =>
      if w.lock.None? then Goto(w.(lock := Some(LockFile(p, w.now))), p, Created) else Goto(w, p, Refused)
    case Created => Goto(w, p, ReadingLog)
    case Refused => if w.lock.None? then Goto(w, p, Creating) else Goto(w, p, Aged(w.lock.value))
    case Aged(seen) => if w.now - seen.mtime > ANCHOR_LOCK_STALE_MS then Goto(w, p, Stealing(seen)) else Goto(w, p, Waiting)
    case Stealing(_) => Goto(w.(lock := None), p, Creating)
    case Waiting => if w.now >= w.procs[p].deadline then Goto(w, p, TimedOut) else Goto(w, p, Creating)
    case ReadingLog => Goto(w, p, Counting(NextClock(w.log)))
    case Counting(clock) => Goto(w, p, Linking(clock, SnapshotOf(w.rows)))
    case Linking(clock, snap) => Goto(w, p, Writing(NewMergeRecord(c, snap, w.log, clock, o.(anchoredAt := anchoredAt))))
    case Writing(record) => Goto(w.(log := w.log + [record]), p, Checking)
    case Checking => Goto(w, p, Comparing(w.log))
    case Comparing(read) => Goto(w, p, Releasing(MergeReport(c, w.rows, read, Some(o.parents)).ok))
    case Releasing(verified) => Goto(w.(lock := None), p, Finished(verified))
    case Finished(_) => w
    case TimedOut => w
    case Crashed => w
  }

  function NextWorld(c: Crypto, w: World, m: Move): World {
    match m
    case Act(p, anchoredAt) => if p < |w.procs| then Acted(c, w, p, anchoredAt) else w
    case Throw(p) =>
      if p < |w.procs| && InSection(w.procs[p].pc) && !w.procs[p].pc.Created? then Goto(w, p, Releasing(false)) else w
    case PidWriteFails(p) => if p < |w.procs| && w.procs[p].pc.Created? then Goto(w, p, Refused) else w
    case Crash(p) => if p < |w.procs| then Goto(w, p, Crashed) else w
    case Tick(ms) => w.(now := w.now + ms)
    case AuditInsert(e) => w.(rows := w.rows + [NewRow(c.sha, w.rows, e)])
  }

  function RunFrom(c: Crypto, w: World, moves: seq<Move>): World {
    if |moves| == 0 then w else NextWorld(c, RunFrom(c, w, Init(moves)), Last(moves))
  }

  /** No lock file, an empty log, every process about to contend; any chain, clock and deadlines. */
  ghost predicate Start(w: World) {
    w.lock.None? && w.log == [] && forall p: nat :: p < |w.procs| ==> w.procs[p].pc == Creating
  }

  // ---------- what is promised ----------

  ghost predicate AtMostOneInSection(w: World) {
    forall p: nat, q: nat :: p < |w.procs| && q < |w.procs| && InSection(w.procs[p].pc) && InSection(w.procs[q].pc) ==> p == q
  }

  /** The clocks along the log are 1, 2, 3, ... */
  ghost predicate ClocksCount(log: seq<MergeRecord>) {
    forall i: nat :: i < |log| ==> log[i].body.lamportClock == i + 1
  }

  /** A process about to compare will be told the log is good, for its own parents. */
  ghost predicate ChecksWillPass(c: Crypto, w: World) {
    forall p: nat :: p < |w.procs| && w.procs[p].pc.Comparing? ==>
      MergeReport(c, w.rows, w.procs[p].pc.read, Some(w.procs[p].options.parents)).ok
  }

  // ---------- the condition ----------

  /** This move unlinks, as stale, the lock of a process that is still in its section. */
  predicate LiveSteal(w: World, m: Move) {
    m.Act? && m.p < |w.procs| && w.procs[m.p].pc.Stealing? &&
    w.lock.Some? && w.lock.value.pid < |w.procs| && InSection(w.procs[w.lock.value.pid].pc)
  }

  predicate NoLiveSteal(c: Crypto, w: World, moves: seq<Move>) {
    |moves| == 0 || (NoLiveSteal(c, w, Init(moves)) && !LiveSteal(RunFrom(c, w, Init(moves)), Last(moves)))
  }

  /** No lock file is older than the stale bound, and neither is an mtime a process is about to judge. */
  ghost predicate WithinBound(w: World) {
    LockWithinBound(w) &&
    forall p: nat :: p < |w.procs| && w.procs[p].pc.Aged? ==> w.now - w.procs[p].pc.seen.mtime <= ANCHOR_LOCK_STALE_MS
  }

  predicate LockWithinBound(w: World) {
    w.lock.Some? ==> w.now - w.lock.value.mtime <= ANCHOR_LOCK_STALE_MS
  }

  ghost predicate AlwaysWithinBound(c: Crypto, w: World, moves: seq<Move>) {
    WithinBound(RunFrom(c, w, moves)) && (|moves| > 0 ==> AlwaysWithinBound(c, w, Init(moves)))
  }

  // ---------- the invariant ----------

  /** The record continues the log: next clock, right link, good hash and signature, live head. */
  ghost predicate Continues(c: Crypto, hashed: seq<Row>, log: seq<MergeRecord>, r: MergeRecord) {
    r.body.lamportClock == |log| + 1 && r.body.prevAnchorHash == MergeTip(log) &&
    ComputeMergeHash(c, r.body) == r.anchorHash && SignatureVerifies(c, r) &&
    HeadFinding(hashed, r.body.chainedRows, r.body.chainHead) == None
  }

  /** What the holder of the lock knows at each point of its section. */
  ghost predicate SectionOk(c: Crypto, hashed: seq<Row>, log: seq<MergeRecord>, proc: Process) {
    match proc.pc
    case Counting(clock) => clock == |log| + 1
    case Linking(clock, snap) => clock == |log| + 1 && HeadFinding(hashed, snap.count, snap.head) == None
    case Writing(r) => Continues(c, hashed, log, r) && r.body.parents == proc.options.parents
    case Checking => |log| > 0 && Last(log).body.parents == proc.options.parents
    case Comparing(read) => read == log && |log| > 0 && Last(log).body.parents == proc.options.parents
    case _ => true
  }

  /** A process in its section holds the lock file, and knows what it should. */
  ghost predicate HolderOk(c: Crypto, w: World, p: nat)
    requires p < |w.procs|
  {
    InSection(w.procs[p].pc) ==>
      w.lock.Some? && w.lock.value.pid == p && SectionOk(c, Hashed(w.rows), w.log, w.procs[p])
  }

  ghost predicate LogGood(c: Crypto, w: World) {
    ClocksCount(w.log) && MergeLogOk(c, Hashed(w.rows), w.log)
  }

  ghost predicate Safe(c: Crypto, w: World) {
    LogGood(c, w) && forall p: nat :: p < |w.procs| ==> HolderOk(c, w, p)
  }

  /** A move of one process that leaves the log alone keeps the invariant if that process stays right. */
  lemma OneMoved(c: Crypto, w: World, w': World, p: nat)
    requires Safe(c, w) && p < |w.procs| == |w'.procs| && w'.log == w.log && w'.rows == w.rows
    requires forall q: nat :: q < |w.procs| && q != p ==> w'.procs[q] == w.procs[q]
    requires w'.lock == w.lock || (forall q: nat :: q < |w.procs| && q != p ==> !InSection(w.procs[q].pc))
    requires HolderOk(c, w', p)
    ensures Safe(c, w')
  {
    forall q: nat | q < |w.procs|
      ensures HolderOk(c, w', q)
    {
      assert HolderOk(c, w, q);
    }
  }

  lemma NobodyElse(c: Crypto, w: World, p: nat)
    requires Safe(c, w) && (w.lock.Some? ==> w.lock.value.pid == p)
    ensures forall q: nat :: q < |w.procs| && q != p ==> !InSection(w.procs[q].pc)
  {
    forall q: nat | q < |w.procs| && q != p
      ensures !InSection(w.procs[q].pc)
    {
      assert HolderOk(c, w, q);
    }
  }

  /** Outside the section: contending never disturbs a holder, unless it steals a live lock. */
  lemma ContendKeepsSafe(c: Crypto, w: World, p: nat, at: string)
    requires Safe(c, w) && p < |w.procs| && !InSection(w.procs[p].pc) && !LiveSteal(w, Act(p, at))
    ensures Safe(c, Acted(c, w, p, at))
  {
    var w' := Acted(c, w, p, at);
    if w.procs[p].pc == Creating && w.lock.None? {
      NobodyElse(c, w, p);
    } else if w.procs[p].pc.Stealing? && w.lock.Some? {
      NobodyInSection(c, w);
    }
    OneMoved(c, w, w', p);
  }

  /** A lock whose creator has left its section protects nobody. */
  lemma NobodyInSection(c: Crypto, w: World)
    requires Safe(c, w) && w.lock.Some?
    requires w.lock.value.pid < |w.procs| ==> !InSection(w.procs[w.lock.value.pid].pc)
    ensures forall q: nat :: q < |w.procs| ==> !InSection(w.procs[q].pc)
  {
    NobodyElse(c, w, w.lock.value.pid);
  }

  lemma SnapshotLive(rows: seq<Row>)
    ensures HeadFinding(Hashed(rows), SnapshotOf(rows).count, SnapshotOf(rows).head) == None
  {
    var hashed := Hashed(rows);
    HashedRowsOf(rows);
    if |hashed| > 0 {
      assert Last(hashed) in hashed;
    }
  }

  /** The clock read under the lock is the next one. */
  lemma NextClockCounts(log: seq<MergeRecord>)
    requires ClocksCount(log)
    ensures NextClock(log) == |log| + 1
  {
  }

  lemma NewRecordContinues(c: Crypto, hashed: seq<Row>, log: seq<MergeRecord>, snap: Snapshot, clock: int, o: AppendOptions)
    requires SignaturesCheck(c) && clock == |log| + 1 && HeadFinding(hashed, snap.count, snap.head) == None
    ensures Continues(c, hashed, log, NewMergeRecord(c, snap, log, clock, o))
  {
  }

  /** Verification passes on a good log whose last record has the given parents. */
  lemma GoodLogVerifies(c: Crypto, w: World, parents: seq<string>)
    requires LogGood(c, w) && |w.log| > 0 && Last(w.log).body.parents == parents
    ensures MergeReport(c, w.rows, w.log, Some(parents)).ok
  {
    NoMergeBreaksIffLogOk(c, Hashed(w.rows), w.log);
  }

  /** Reading inside the section. */
  lemma SectionReadKeepsSafe(c: Crypto, w: World, p: nat, at: string)
    requires SignaturesCheck(c) && Safe(c, w) && p < |w.procs|
    requires InSection(w.procs[p].pc) && !w.procs[p].pc.Writing? && !w.procs[p].pc.Releasing?
    ensures Safe(c, Acted(c, w, p, at))
  {
    assert HolderOk(c, w, p);
    NextClockCounts(w.log);
    SnapshotLive(w.rows);
    if w.procs[p].pc.Linking? {
      NewRecordContinues(c, Hashed(w.rows), w.log, w.procs[p].pc.snap, w.procs[p].pc.clock,
                         w.procs[p].options.(anchoredAt := at));
    }
    OneMoved(c, w, Acted(c, w, p, at), p);
  }

  /** The append: the one move that changes the log. */
  lemma WriteKeepsSafe(c: Crypto, w: World, p: nat, at: string)
    requires Safe(c, w) && p < |w.procs| && w.procs[p].pc.Writing?
    ensures Safe(c, Acted(c, w, p, at))
  {
    assert HolderOk(c, w, p);
    NobodyElse(c, w, p);
    var r := w.procs[p].pc.record;
    MergeLogOkSnoc(c, Hashed(w.rows), w.log, r);
    var w' := Acted(c, w, p, at);
    forall q: nat | q < |w'.procs|
      ensures HolderOk(c, w', q)
    {
    }
  }

  lemma ReleaseKeepsSafe(c: Crypto, w: World, p: nat, at: string)
    requires Safe(c, w) && p < |w.procs| && w.procs[p].pc.Releasing?
    ensures Safe(c, Acted(c, w, p, at))
  {
    assert HolderOk(c, w, p);
    NobodyElse(c, w, p);
    OneMoved(c, w, Acted(c, w, p, at), p);
  }

  lemma ActKeepsSafe(c: Crypto, w: World, p: nat, at: string)
    requires SignaturesCheck(c) && Safe(c, w) && p < |w.procs| && !LiveSteal(w, Act(p, at))
    ensures Safe(c, Acted(c, w, p, at))
  {
    if !InSection(w.procs[p].pc) {
      ContendKeepsSafe(c, w, p, at);
    } else if w.procs[p].pc.Writing? {
      WriteKeepsSafe(c, w, p, at);
    } else if w.procs[p].pc.Releasing? {
      ReleaseKeepsSafe(c, w, p, at);
    } else {
      SectionReadKeepsSafe(c, w, p, at);
    }
  }

  lemma InsertKeepsMergeLogOk(c: Crypto, hashed: seq<Row>, row: Row, log: seq<MergeRecord>)
    requires MergeLogOk(c, hashed, log)
    ensures MergeLogOk(c, hashed + [row], log)
  {
    forall i: nat | i < |log|
      ensures MergeRecordOk(c, hashed + [row], log, i)
    {
      assert MergeRecordOk(c, hashed, log, i);
    }
  }

  lemma InsertKeepsSafe(c: Crypto, w: World, e: Event)
    requires Safe(c, w)
    ensures Safe(c, NextWorld(c, w, AuditInsert(e)))
  {
    var row := NewRow(c.sha, w.rows, e);
    var w' := NextWorld(c, w, AuditInsert(e));
    assert Init(w.rows + [row]) == w.rows;
    assert Hashed(w'.rows) == Hashed(w.rows) + [row];
    InsertKeepsMergeLogOk(c, Hashed(w.rows), row, w.log);
    forall p: nat | p < |w'.procs|
      ensures HolderOk(c, w', p)
    {
      assert HolderOk(c, w, p);
    }
  }

  lemma MoveKeepsSafe(c: Crypto, w: World, m: Move)
    requires SignaturesCheck(c) && Safe(c, w) && !LiveSteal(w, m)
    ensures Safe(c, NextWorld(c, w, m))
  {
    match m
    case Act(p, at) => if p < |w.procs| { ActKeepsSafe(c, w, p, at); }
    case Throw(p) =>
      if p < |w.procs| && InSection(w.procs[p].pc) {
        assert HolderOk(c, w, p);
        OneMoved(c, w, NextWorld(c, w, m), p);
      }
    case PidWriteFails(p) => if p < |w.procs| { assert HolderOk(c, w, p); OneMoved(c, w, NextWorld(c, w, m), p); }
    case Crash(p) => if p < |w.procs| { OneMoved(c, w, NextWorld(c, w, m), p); }
    case Tick(ms) =>
      assert forall p: nat :: p < |w.procs| ==> HolderOk(c, NextWorld(c, w, m), p) == HolderOk(c, w, p);
    case AuditInsert(e) => InsertKeepsSafe(c, w, e);
  }

  lemma {:induction false} RunKeepsSafe(c: Crypto, w: World, moves: seq<Move>)
    requires SignaturesCheck(c) && Start(w) && NoLiveSteal(c, w, moves)
    ensures Safe(c, RunFrom(c, w, moves))
  {
    if |moves| > 0 {
      RunKeepsSafe(c, w, Init(moves));
      MoveKeepsSafe(c, RunFrom(c, w, Init(moves)), Last(moves));
    }
  }

  /**
   * Main result. In every interleaving, crashes and throws included, in which no waiter unlinks the
   * lock of a process still in its section: at most one process is in the section, the clocks are
   * exactly 1..k, every record verifies and names its predecessor, and every holder's own check passes.
   */
  lemma SectionsAreExclusive(c: Crypto, w: World, moves: seq<Move>)
    requires SignaturesCheck(c) && Start(w) && NoLiveSteal(c, w, moves)
    ensures var end := RunFrom(c, w, moves);
            AtMostOneInSection(end) && ClocksCount(end.log) && MergeBreaks(c, Hashed(end.rows), end.log) == [] &&
            ChecksWillPass(c, end)
  {
    RunKeepsSafe(c, w, moves);
    var end := RunFrom(c, w, moves);
    NoMergeBreaksIffLogOk(c, Hashed(end.rows), end.log);
    forall p: nat, q: nat | p < |end.procs| && q < |end.procs| && InSection(end.procs[p].pc) && InSection(end.procs[q].pc)
      ensures p == q
    {
      assert HolderOk(c, end, p) && HolderOk(c, end, q);
    }
    forall p: nat | p < |end.procs| && end.procs[p].pc.Comparing?
      ensures MergeReport(c, end.rows, end.procs[p].pc.read, Some(end.procs[p].options.parents)).ok
    {
      assert HolderOk(c, end, p);
      GoodLogVerifies(c, end, end.procs[p].options.parents);
    }
  }

  // ---------- when the condition holds ----------

  ghost predicate NobodySteals(w: World) {
    forall p: nat :: p < |w.procs| ==> !w.procs[p].pc.Stealing?
  }

  lemma ActKeepsNobodySteals(c: Crypto, w: World, p: nat, at: string)
    requires NobodySteals(w) && WithinBound(w) && p < |w.procs|
    ensures NobodySteals(Acted(c, w, p, at))
  {
    var w' := Acted(c, w, p, at);
    assert forall q: nat :: q < |w.procs| && q != p ==> w'.procs[q] == w.procs[q];
    assert !w'.procs[p].pc.Stealing?;
  }

  lemma MoveKeepsNobodySteals(c: Crypto, w: World, m: Move)
    requires NobodySteals(w) && WithinBound(w)
    ensures NobodySteals(NextWorld(c, w, m)) && !LiveSteal(w, m)
  {
    match m
    case Act(p, at) => if p < |w.procs| { ActKeepsNobodySteals(c, w, p, at); }
    case _ =>
  }

  /** The 60 s bound on lock files, and on the pause between stat and age check, rules a live steal out. */
  lemma {:induction false} BoundRulesOutSteals(c: Crypto, w: World, moves: seq<Move>)
    requires Start(w) && AlwaysWithinBound(c, w, moves)
    ensures NoLiveSteal(c, w, moves) && NobodySteals(RunFrom(c, w, moves))
  {
    if |moves| > 0 {
      BoundRulesOutSteals(c, w, Init(moves));
      MoveKeepsNobodySteals(c, RunFrom(c, w, Init(moves)), Last(moves));
    }
  }

  /** From a state with exclusive sections, the stealer's next two moves give two holders exactly when it steals a live lock. */
  lemma LiveStealIsExactlyTheDanger(c: Crypto, w: World, p: nat, at: string)
    requires Safe(c, w) && p < |w.procs| && w.procs[p].pc.Stealing?
    ensures AtMostOneInSection(NextWorld(c, NextWorld(c, w, Act(p, at)), Act(p, at))) <==> !LiveSteal(w, Act(p, at))
  {
    var w' := NextWorld(c, NextWorld(c, w, Act(p, at)), Act(p, at));
    assert w'.procs[p].pc == Created;
    if LiveSteal(w, Act(p, at)) {
      var q := w.lock.value.pid;
      assert w'.procs[q] == w.procs[q] && q != p;
    } else if w.lock.Some? {
      NobodyInSection(c, w);
    } else {
      NobodyElse(c, w, p);
    }
  }

  // ---------- the bound on lock files alone is not enough ----------

  ghost predicate LocksAlwaysWithinBound(c: Crypto, w: World, moves: seq<Move>) {
    LockWithinBound(RunFrom(c, w, moves)) && (|moves| > 0 ==> LocksAlwaysWithinBound(c, w, Init(moves)))
  }

  /** One more move, spelled out: where it starts, where it ends. */
  lemma LocksStayWithinBound(c: Crypto, w: World, moves: seq<Move>, before: World, m: Move, after: World)
    requires LocksAlwaysWithinBound(c, w, moves) && RunFrom(c, w, moves) == before
    requires NextWorld(c, before, m) == after && LockWithinBound(after)
    ensures LocksAlwaysWithinBound(c, w, moves + [m]) && RunFrom(c, w, moves + [m]) == after
  {
    assert Init(moves + [m]) == moves;
  }

  /** Three processes of one caller at the given points of their code. */
  function Three(now: int, lock: Option<LockFile>, o: AppendOptions, a: Pc, b: Pc, d: Pc): World {
    World(now, lock, [], [], [Process(o, 100000, a), Process(o, 100000, b), Process(o, 100000, d)])
  }

  const FIRST_HALF := [Act(0, ""), Act(0, ""), Act(1, ""), Act(1, ""), Throw(0), Act(0, "")]
  const SECOND_HALF := [Tick(60001), Act(2, ""), Act(1, ""), Act(1, ""), Act(1, "")]

  /** A waiter reads the mtime of a lock that is then released in time. */
  lemma PausedAfterStat(c: Crypto, o: AppendOptions)
    ensures var w := Three(0, None, o, Creating, Creating, Creating);
            LocksAlwaysWithinBound(c, w, FIRST_HALF) &&
            RunFrom(c, w, FIRST_HALF) == Three(0, None, o, Finished(false), Aged(LockFile(0, 0)), Creating)
  {
    var w := Three(0, None, o, Creating, Creating, Creating);
    var held := Some(LockFile(0, 0));
    var w1 := Three(0, held, o, Created, Creating, Creating);
    var w2 := Three(0, held, o, ReadingLog, Creating, Creating);
    var w3 := Three(0, held, o, ReadingLog, Refused, Creating);
    var w4 := Three(0, held, o, ReadingLog, Aged(LockFile(0, 0)), Creating);
    var w5 := Three(0, held, o, Releasing(false), Aged(LockFile(0, 0)), Creating);
    var m1 := [] + [Act(0, "")];
    var m2 := m1 + [Act(0, "")];
    var m3 := m2 + [Act(1, "")];
    var m4 := m3 + [Act(1, "")];
    LocksStayWithinBound(c, w, [], w, Act(0, ""), w1);
    LocksStayWithinBound(c, w, m1, w1, Act(0, ""), w2);
    LocksStayWithinBound(c, w, m2, w2, Act(1, ""), w3);
    LocksStayWithinBound(c, w, m3, w3, Act(1, ""), w4);
    LocksStayWithinBound(c, w, m4, w4, Throw(0), w5);
    LocksStayWithinBound(c, w, m4 + [Throw(0)], w5, Act(0, ""),
                         Three(0, None, o, Finished(false), Aged(LockFile(0, 0)), Creating));
    assert FIRST_HALF == m4 + [Throw(0)] + [Act(0, "")];
  }

  /** It then judges that old mtime, and unlinks the new holder's lock. */
  lemma StaleJudgement(c: Crypto, o: AppendOptions)
    ensures var w := Three(0, None, o, Finished(false), Aged(LockFile(0, 0)), Creating);
            LocksAlwaysWithinBound(c, w, SECOND_HALF) &&
            RunFrom(c, w, SECOND_HALF) ==
              Three(60001, Some(LockFile(1, 60001)), o, Finished(false), Created, Created)
  {
    var w := Three(0, None, o, Finished(false), Aged(LockFile(0, 0)), Creating);
    var held := Some(LockFile(2, 60001));
    var w1 := Three(60001, None, o, Finished(false), Aged(LockFile(0, 0)), Creating);
    var w2 := Three(60001, held, o, Finished(false), Aged(LockFile(0, 0)), Created);
    var w3 := Three(60001, held, o, Finished(false), Stealing(LockFile(0, 0)), Created);
    var w4 := Three(60001, None, o, Finished(false), Creating, Created);
    LocksStayWithinBound(c, w, [], w, Tick(60001), w1);
    LocksStayWithinBound(c, w, [] + [Tick(60001)], w1, Act(2, ""), w2);
    LocksStayWithinBound(c, w, [] + [Tick(60001)] + [Act(2, "")], w2, Act(1, ""), w3);
    LocksStayWithinBound(c, w, [] + [Tick(60001)] + [Act(2, "")] + [Act(1, "")], w3, Act(1, ""), w4);
    LocksStayWithinBound(c, w, [] + [Tick(60001)] + [Act(2, "")] + [Act(1, "")] + [Act(1, "")], w4, Act(1, ""),
                         Three(60001, Some(LockFile(1, 60001)), o, Finished(false), Created, Created));
    assert SECOND_HALF == [] + [Tick(60001)] + [Act(2, "")] + [Act(1, "")] + [Act(1, "")] + [Act(1, "")];
  }

  lemma {:induction false} RunsCompose(c: Crypto, w: World, xs: seq<Move>, ys: seq<Move>)
    requires LocksAlwaysWithinBound(c, w, xs) && LocksAlwaysWithinBound(c, RunFrom(c, w, xs), ys)
    ensures RunFrom(c, w, xs + ys) == RunFrom(c, RunFrom(c, w, xs), ys)
    ensures LocksAlwaysWithinBound(c, w, xs + ys)
  {
    if |ys| == 0 {
      assert xs + ys == xs;
    } else {
      RunsCompose(c, w, xs, Init(ys));
      assert Init(xs + ys) == xs + Init(ys);
    }
  }

  /**
   * The documented bound alone does not exclude two holders: here no lock file is ever older than
   * 60 s, but a waiter pauses between its stat and its age check.
   */
  lemma LockBoundAloneIsNotEnough(c: Crypto, o: AppendOptions)
    ensures var w := Three(0, None, o, Creating, Creating, Creating);
            Start(w) && LocksAlwaysWithinBound(c, w, FIRST_HALF + SECOND_HALF) &&
            !AtMostOneInSection(RunFrom(c, w, FIRST_HALF + SECOND_HALF))
  {
    PausedAfterStat(c, o);
    StaleJudgement(c, o);
    var w := Three(0, None, o, Creating, Creating, Creating);
    RunsCompose(c, w, FIRST_HALF, SECOND_HALF);
    var end := RunFrom(c, w, FIRST_HALF + SECOND_HALF);
    assert end.procs[1].pc == Created && end.procs[2].pc == Created;
  }
}
