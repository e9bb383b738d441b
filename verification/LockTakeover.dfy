/**
 * Taking over the anchor lock of a crashed holder (apps/curator/src/cli.ts): which takeovers are
 * safe, and the double takeover that is not.
 */
module LockTakeover {
  import opened Prelude
  import opened SignedMergeAnchor
  import opened AuditChain
  import opened AuditAnchor
  import opened MergeLock

  /** No process in its section has held the lock longer than the bound; a crashed holder's lock may be any age. */
  predicate LiveWithinBound(w: World) {
    w.lock.Some? && w.lock.value.pid < |w.procs| && InSection(w.procs[w.lock.value.pid].pc) ==>
      w.now - w.lock.value.mtime <= ANCHOR_LOCK_STALE_MS
  }

  predicate AlwaysLiveWithinBound(c: Crypto, w: World, moves: seq<Move>) {
    LiveWithinBound(RunFrom(c, w, moves)) && (|moves| > 0 ==> AlwaysLiveWithinBound(c, w, Init(moves)))
  }

  /** This move unlinks a lock file other than the one the process had judged. */
  predicate StealsAnother(w: World, m: Move) {
    m.Act? && m.p < |w.procs| && w.procs[m.p].pc.Stealing? && w.lock.Some? && w.lock.value != w.procs[m.p].pc.seen
  }

  predicate StealsOnlyWhatItJudged(c: Crypto, w: World, moves: seq<Move>) {
    |moves| == 0 || (StealsOnlyWhatItJudged(c, w, Init(moves)) && !StealsAnother(RunFrom(c, w, Init(moves)), Last(moves)))
  }

  /** Whoever is about to unlink had judged a lock older than the bound. */
  ghost predicate Judged(w: World) {
    forall p: nat :: p < |w.procs| && w.procs[p].pc.Stealing? ==> w.now - w.procs[p].pc.seen.mtime > ANCHOR_LOCK_STALE_MS
  }

  lemma ActKeepsJudged(c: Crypto, w: World, p: nat, at: string)
    requires Judged(w) && p < |w.procs|
    ensures Judged(Acted(c, w, p, at))
  {
    var w' := Acted(c, w, p, at);
    assert w'.now == w.now;
    assert forall q: nat :: q < |w.procs| && q != p ==> w'.procs[q] == w.procs[q];
    assert w'.procs[p].pc.Stealing? ==> w.procs[p].pc.Aged? && w'.procs[p].pc.seen == w.procs[p].pc.seen;
  }

  lemma MoveKeepsJudged(c: Crypto, w: World, m: Move)
    requires Judged(w)
    ensures Judged(NextWorld(c, w, m))
  {
    match m
    case Act(p, at) => if p < |w.procs| { ActKeepsJudged(c, w, p, at); }
    case _ =>
  }

  lemma {:induction false} RunKeepsJudged(c: Crypto, w: World, moves: seq<Move>)
    requires Start(w)
    ensures Judged(RunFrom(c, w, moves))
  {
    if |moves| > 0 {
      RunKeepsJudged(c, w, Init(moves));
      MoveKeepsJudged(c, RunFrom(c, w, Init(moves)), Last(moves));
    }
  }

  /** While live sections are short, a steal that hits a live holder unlinks another file than it judged. */
  lemma LiveStealsAreOfAnother(w: World, p: nat, at: string)
    requires Judged(w) && LiveWithinBound(w) && p < |w.procs| && w.procs[p].pc.Stealing? && LiveSteal(w, Act(p, at))
    ensures StealsAnother(w, Act(p, at))
  {
  }

  /** The process that created the lock file that is there now is no longer in its section. */
  predicate CreatorLeft(w: World) {
    w.lock.Some? && w.lock.value.pid < |w.procs| ==> !InSection(w.procs[w.lock.value.pid].pc)
  }

  /**
   * From any state a run without live steals reaches, while live sections are short: unlinking and
   * creating leaves one process in the section exactly when the lock file is gone, is still the one
   * that was judged, or was left behind by its creator. Comparing the file before the unlink would do.
   */
  lemma TakeoverIsExclusiveIff(c: Crypto, w: World, moves: seq<Move>, p: nat, at: string)
    requires SignaturesCheck(c) && Start(w) && NoLiveSteal(c, w, moves) && LiveWithinBound(RunFrom(c, w, moves))
    requires p < |RunFrom(c, w, moves).procs| && RunFrom(c, w, moves).procs[p].pc.Stealing?
    ensures var now := RunFrom(c, w, moves);
            AtMostOneInSection(NextWorld(c, NextWorld(c, now, Act(p, at)), Act(p, at))) <==>
            now.lock.None? || now.lock.value == now.procs[p].pc.seen || CreatorLeft(now)
  {
    var now := RunFrom(c, w, moves);
    RunKeepsSafe(c, w, moves);
    RunKeepsJudged(c, w, moves);
    LiveStealIsExactlyTheDanger(c, now, p, at);
    if LiveSteal(now, Act(p, at)) {
      LiveStealsAreOfAnother(now, p, at);
    }
  }

  lemma {:induction false} JudgedStealsAreNotLive(c: Crypto, w: World, moves: seq<Move>)
    requires Start(w) && AlwaysLiveWithinBound(c, w, moves) && StealsOnlyWhatItJudged(c, w, moves)
    ensures NoLiveSteal(c, w, moves)
  {
    if |moves| > 0 {
      var before, m := RunFrom(c, w, Init(moves)), Last(moves);
      JudgedStealsAreNotLive(c, w, Init(moves));
      RunKeepsJudged(c, w, Init(moves));
      if LiveSteal(before, m) {
        LiveStealsAreOfAnother(before, m.p, m.anchoredAt);
      }
    }
  }

  /**
   * Recovery is safe: in every interleaving, crashed holders and takeovers included, in which no live
   * section outlasts the bound and whoever steals unlinks the very file it judged, sections are
   * exclusive and the log is good.
   */
  lemma RecoveryIsSafe(c: Crypto, w: World, moves: seq<Move>)
    requires SignaturesCheck(c) && Start(w)
    requires AlwaysLiveWithinBound(c, w, moves) && StealsOnlyWhatItJudged(c, w, moves)
    ensures var end := RunFrom(c, w, moves);
            AtMostOneInSection(end) && ClocksCount(end.log) && MergeBreaks(c, Hashed(end.rows), end.log) == [] &&
            ChecksWillPass(c, end)
  {
    JudgedStealsAreNotLive(c, w, moves);
    SectionsAreExclusive(c, w, moves);
  }

  // ---------- two takeovers of one lock ----------

  lemma RunSnoc(c: Crypto, w: World, moves: seq<Move>, before: World, m: Move, after: World)
    requires AlwaysLiveWithinBound(c, w, moves) && RunFrom(c, w, moves) == before
    requires NextWorld(c, before, m) == after && LiveWithinBound(after)
    ensures AlwaysLiveWithinBound(c, w, moves + [m]) && RunFrom(c, w, moves + [m]) == after
  {
    assert Init(moves + [m]) == moves;
  }

  const OLD := LockFile(0, 0)

  /** The holder crashes; two waiters find its lock, more than 60 s old, and judge it at once. */
  const JUDGE := [Act(0, ""), Crash(0), Tick(60001), Act(1, ""), Act(2, ""), Act(1, ""), Act(2, ""), Act(1, ""), Act(2, "")]

  /** One takes it over; the other unlinks the new lock and takes over too. */
  const TAKE := [Act(1, ""), Act(1, ""), Act(2, ""), Act(2, "")]

  lemma HolderCrashes(c: Crypto, o: AppendOptions)
    ensures var w := Three(0, None, o, Creating, Creating, Creating);
            AlwaysLiveWithinBound(c, w, JUDGE[..3]) &&
            RunFrom(c, w, JUDGE[..3]) == Three(60001, Some(OLD), o, Crashed, Creating, Creating)
  {
    var w := Three(0, None, o, Creating, Creating, Creating);
    var m1 := [] + [Act(0, "")];
    var m2 := m1 + [Crash(0)];
    RunSnoc(c, w, [], w, Act(0, ""), Three(0, Some(OLD), o, Created, Creating, Creating));
    RunSnoc(c, w, m1, Three(0, Some(OLD), o, Created, Creating, Creating), Crash(0),
            Three(0, Some(OLD), o, Crashed, Creating, Creating));
    RunSnoc(c, w, m2, Three(0, Some(OLD), o, Crashed, Creating, Creating), Tick(60001),
            Three(60001, Some(OLD), o, Crashed, Creating, Creating));
    assert JUDGE[..3] == m2 + [Tick(60001)];
  }

  /** Waiters' moves while the crashed holder's lock lies there. */
  lemma BothJudge(c: Crypto, o: AppendOptions)
    ensures var w := Three(60001, Some(OLD), o, Crashed, Creating, Creating);
            AlwaysLiveWithinBound(c, w, JUDGE[3..]) &&
            RunFrom(c, w, JUDGE[3..]) == Three(60001, Some(OLD), o, Crashed, Stealing(OLD), Stealing(OLD))
  {
    var w := Three(60001, Some(OLD), o, Crashed, Creating, Creating);
    var m1 := [] + [Act(1, "")];
    var m2 := m1 + [Act(2, "")];
    var m3 := m2 + [Act(1, "")];
    var m4 := m3 + [Act(2, "")];
    var m5 := m4 + [Act(1, "")];
    RunSnoc(c, w, [], w, Act(1, ""), Three(60001, Some(OLD), o, Crashed, Refused, Creating));
    RunSnoc(c, w, m1, Three(60001, Some(OLD), o, Crashed, Refused, Creating), Act(2, ""),
            Three(60001, Some(OLD), o, Crashed, Refused, Refused));
    RunSnoc(c, w, m2, Three(60001, Some(OLD), o, Crashed, Refused, Refused), Act(1, ""),
            Three(60001, Some(OLD), o, Crashed, Aged(OLD), Refused));
    RunSnoc(c, w, m3, Three(60001, Some(OLD), o, Crashed, Aged(OLD), Refused), Act(2, ""),
            Three(60001, Some(OLD), o, Crashed, Aged(OLD), Aged(OLD)));
    RunSnoc(c, w, m4, Three(60001, Some(OLD), o, Crashed, Aged(OLD), Aged(OLD)), Act(1, ""),
            Three(60001, Some(OLD), o, Crashed, Stealing(OLD), Aged(OLD)));
    RunSnoc(c, w, m5, Three(60001, Some(OLD), o, Crashed, Stealing(OLD), Aged(OLD)), Act(2, ""),
            Three(60001, Some(OLD), o, Crashed, Stealing(OLD), Stealing(OLD)));
    assert JUDGE[3..] == m5 + [Act(2, "")];
  }

  /** One waiter takes the lock over; the other then unlinks the new lock, and takes over too. */
  lemma BothTake(c: Crypto, o: AppendOptions)
    ensures var w := Three(60001, Some(OLD), o, Crashed, Stealing(OLD), Stealing(OLD));
            AlwaysLiveWithinBound(c, w, TAKE) &&
            RunFrom(c, w, TAKE) == Three(60001, Some(LockFile(2, 60001)), o, Crashed, Created, Created)
  {
    var w := Three(60001, Some(OLD), o, Crashed, Stealing(OLD), Stealing(OLD));
    var mine := Some(LockFile(1, 60001));
    var m1 := [] + [Act(1, "")];
    var m2 := m1 + [Act(1, "")];
    var m3 := m2 + [Act(2, "")];
    RunSnoc(c, w, [], w, Act(1, ""), Three(60001, None, o, Crashed, Creating, Stealing(OLD)));
    RunSnoc(c, w, m1, Three(60001, None, o, Crashed, Creating, Stealing(OLD)), Act(1, ""),
            Three(60001, mine, o, Crashed, Created, Stealing(OLD)));
    RunSnoc(c, w, m2, Three(60001, mine, o, Crashed, Created, Stealing(OLD)), Act(2, ""),
            Three(60001, None, o, Crashed, Created, Creating));
    RunSnoc(c, w, m3, Three(60001, None, o, Crashed, Created, Creating), Act(2, ""),
            Three(60001, Some(LockFile(2, 60001)), o, Crashed, Created, Created));
    assert TAKE == m3 + [Act(2, "")];
  }

  lemma {:induction false} RunsJoin(c: Crypto, w: World, xs: seq<Move>, ys: seq<Move>)
    requires AlwaysLiveWithinBound(c, w, xs) && AlwaysLiveWithinBound(c, RunFrom(c, w, xs), ys)
    ensures RunFrom(c, w, xs + ys) == RunFrom(c, RunFrom(c, w, xs), ys) && AlwaysLiveWithinBound(c, w, xs + ys)
  {
    if |ys| == 0 {
      assert xs + ys == xs;
    } else {
      RunsJoin(c, w, xs, Init(ys));
      assert Init(xs + ys) == xs + Init(ys);
    }
  }

  /**
   * The double takeover: no live section is long, nobody pauses, and after a crash two waiters that
   * judged the same abandoned lock are both in the section.
   */
  lemma DoubleTakeover(c: Crypto, o: AppendOptions)
    ensures var w := Three(0, None, o, Creating, Creating, Creating);
            Start(w) && AlwaysLiveWithinBound(c, w, JUDGE + TAKE) && !AtMostOneInSection(RunFrom(c, w, JUDGE + TAKE))
  {
    var w := Three(0, None, o, Creating, Creating, Creating);
    HolderCrashes(c, o);
    BothJudge(c, o);
    RunsJoin(c, w, JUDGE[..3], JUDGE[3..]);
    assert JUDGE == JUDGE[..3] + JUDGE[3..];
    BothTake(c, o);
    RunsJoin(c, w, JUDGE, TAKE);
    var end := RunFrom(c, w, JUDGE + TAKE);
    assert end.procs[1].pc == Created && end.procs[2].pc == Created;
  }

  /** A lone takeover of a dead lock is safe, and the taker gets in. */
  lemma TakeoverOfADeadLock(c: Crypto, w: World, p: nat, at: string)
    requires SignaturesCheck(c) && Safe(c, w) && p < |w.procs| && w.procs[p].pc.Stealing? && !LiveSteal(w, Act(p, at))
    ensures var taken := NextWorld(c, NextWorld(c, w, Act(p, at)), Act(p, at));
            Safe(c, taken) && taken.procs[p].pc == Created && taken.lock == Some(LockFile(p, w.now))
  {
    var unlinked := NextWorld(c, w, Act(p, at));
    MoveKeepsSafe(c, w, Act(p, at));
    assert !LiveSteal(unlinked, Act(p, at));
    MoveKeepsSafe(c, unlinked, Act(p, at));
  }
}
