/**
 * The freshness watermark of the search index (apps/edge-daemon/src/cycle.ts, with the dirty signal
 * of packages/store/src/schema.ts and index-state-repository.ts): promotions go on between any two
 * steps of any number of export-and-reindex chains (daemon cycles, API refreshes). An export reads
 * the store first and writes file by file later; it completes even if it set some files aside.
 */
module FreshnessWatermark {
  import opened Prelude

  datatype Promotion = Promotion(id: string, at: int)

  /** Where a chain is: what it sampled, what its export has read, how the export and the index update went. */
  datatype Chain =
    | Idle
    | Sampled(watermark: int)
    | Reading(watermark: int, captured: set<Promotion>)
    | Exported(watermark: int, exportOk: bool)
    | Updated(watermark: int, exportOk: bool)

  /**
   * tree: promotions whose markdown was written; missed: those a completed export had read and set
   * aside; read: those a completed export has read; absorbed: those in a read that an index update
   * followed; indexed: those whose markdown an index update has taken in.
   */
  datatype World = World(
    now: int,
    lastSample: int,
    promotions: set<Promotion>,
    tree: set<Promotion>,
    missed: set<Promotion>,
    read: set<Promotion>,
    absorbed: set<Promotion>,
    indexed: set<Promotion>,
    mark: Option<int>,
    chains: seq<Chain>)

  datatype Step =
    | Tick(ms: nat)
    | Promote(p: Promotion)
    | Retire(p: Promotion)
    | Sample(c: nat)
    | ExportRead(c: nat)
    | ExportDone(c: nat, setAside: set<Promotion>)
    | ExportRetried(c: nat, partial: set<Promotion>)
    | ExportFailed(c: nat, partial: set<Promotion>)
    | IndexDone(c: nat)
    | IndexFailed(c: nat)
    | Mark(c: nat)
    | MarkFailed(c: nat)

  function Goto(w: World, c: nat, chain: Chain): World
    requires c < |w.chains|
  {
    w.(chains := w.chains[c := chain])
  }

  /** What the chain's export has read so far. */
  function Captured(chain: Chain): set<Promotion> {
    if chain.Reading? then chain.captured else {}
  }

  /** The step of a chain: which next state, if the chain is where the step belongs. */
  function ChainNext(w: World, c: nat, step: Step): World
    requires c < |w.chains|
  {
    var chain := w.chains[c];
    match step
    case Sample(_) => if chain.Idle? && w.now >= w.lastSample then Goto(w, c, Sampled(w.now)).(lastSample := w.now) else w
    case ExportRead(_) => if chain.Sampled? then Goto(w, c, Reading(chain.watermark, w.promotions)) else w
    case ExportDone(_, setAside) =>
      if !chain.Reading? then w
      else
        Goto(w, c, Exported(chain.watermark, true)).(
          tree := w.tree + (chain.captured - setAside),
          missed := w.missed + chain.captured * setAside,
          read := w.read + chain.captured)
    case ExportRetried(_, partial) =>
      if !chain.Reading? then w
      else Goto(w, c, Sampled(chain.watermark)).(tree := w.tree + partial * chain.captured)
    case ExportFailed(_, partial) =>
      if !chain.Sampled? && !chain.Reading? then w
      else Goto(w, c, Exported(chain.watermark, false)).(tree := w.tree + partial * Captured(chain))
    case IndexDone(_) =>
      if !chain.Exported? then w
      else Goto(w, c, Updated(chain.watermark, chain.exportOk)).(indexed := w.indexed + w.tree, absorbed := w.absorbed + w.read)
    case IndexFailed(_) => if chain.Exported? then Goto(w, c, Idle) else w
    case Mark(_) => if chain.Updated? then Goto(w, c, Idle).(mark := Some(chain.watermark)) else w
    case MarkFailed(_) => if chain.Updated? then Goto(w, c, Idle) else w
    case _ => w
  }

  /** A promotion takes effect only with a stamp later than every watermark sampled so far. */
  function Next(w: World, step: Step): World {
    match step
    case Tick(ms) => w.(now := w.now + ms)
    case Promote(p) => if p.at > w.lastSample then w.(promotions := w.promotions + {p}) else w
    case Retire(p) => w.(promotions := w.promotions - {p})
    case _ => if step.c < |w.chains| then ChainNext(w, step.c, step) else w
  }

  function RunFrom(w: World, steps: seq<Step>): World {
    if |steps| == 0 then w else Next(RunFrom(w, Init(steps)), Last(steps))
  }

  /** Never marked, nothing read yet; any promotions, tree and index; every chain idle. */
  ghost predicate Unmarked(w: World) {
    w.mark.None? && w.read == {} && w.absorbed == {} && forall c: nat :: c < |w.chains| ==> w.chains[c].Idle?
  }

  /** The gauge: measured, and no promotion newer than the mark. */
  predicate MeasuresFresh(w: World) {
    w.mark.Some? && forall p :: p in w.promotions ==> p.at <= w.mark.value
  }

  /** This mark closes a chain whose export did not go through. */
  predicate MarksUnexported(w: World, step: Step) {
    step.Mark? && step.c < |w.chains| && w.chains[step.c].Updated? && !w.chains[step.c].exportOk
  }

  predicate MarksOnlyExported(w: World, steps: seq<Step>) {
    |steps| == 0 || (MarksOnlyExported(w, Init(steps)) && !MarksUnexported(RunFrom(w, Init(steps)), Last(steps)))
  }

  // ---------- the invariant ----------

  /** Promotions stamped at or before the watermark are all in the set. */
  ghost predicate Covers(promotions: set<Promotion>, watermark: int, s: set<Promotion>) {
    forall p :: p in promotions && p.at <= watermark ==> p in s
  }

  ghost predicate ChainOk(w: World, chain: Chain) {
    match chain
    case Idle => true
    case Sampled(watermark) => watermark <= w.lastSample
    case Reading(watermark, captured) => watermark <= w.lastSample && Covers(w.promotions, watermark, captured)
    case Exported(watermark, exportOk) => watermark <= w.lastSample && (exportOk ==> Covers(w.promotions, watermark, w.read))
    case Updated(watermark, exportOk) => watermark <= w.lastSample && (exportOk ==> Covers(w.promotions, watermark, w.absorbed))
  }

  ghost predicate MarkOk(w: World) {
    w.mark.Some? ==> w.mark.value <= w.lastSample && Covers(w.promotions, w.mark.value, w.absorbed)
  }

  /** What was read was written or set aside; what was absorbed was taken in or set aside. */
  ghost predicate BooksOk(w: World) {
    w.read <= w.tree + w.missed && w.absorbed <= w.indexed + w.missed
  }

  ghost predicate Inv(w: World) {
    MarkOk(w) && BooksOk(w) && forall c: nat :: c < |w.chains| ==> ChainOk(w, w.chains[c])
  }

  /** Sets that only grow, samples that only rise and promotions that only come later keep a chain right. */
  lemma ChainStaysOk(w: World, w': World, chain: Chain)
    requires ChainOk(w, chain) && w.lastSample <= w'.lastSample && w.read <= w'.read && w.absorbed <= w'.absorbed
    requires forall p :: p in w'.promotions ==> p in w.promotions || p.at > w.lastSample
    ensures ChainOk(w', chain)
  {
  }

  lemma StoreStepKeepsInv(w: World, step: Step)
    requires Inv(w) && (step.Tick? || step.Promote? || step.Retire?)
    ensures Inv(Next(w, step))
  {
    var w' := Next(w, step);
    forall c: nat | c < |w'.chains|
      ensures ChainOk(w', w'.chains[c])
    {
      ChainStaysOk(w, w', w.chains[c]);
    }
  }

  /** A step of one chain keeps that chain right; the others stay right by themselves. */
  lemma ChainStepKeepsInv(w: World, c: nat, step: Step)
    requires Inv(w) && c < |w.chains| && !(step.Mark? && w.chains[c].Updated? && !w.chains[c].exportOk)
    ensures Inv(ChainNext(w, c, step))
  {
    var w' := ChainNext(w, c, step);
    assert ChainOk(w, w.chains[c]);
    assert ChainOk(w', w'.chains[c]);
    forall d: nat | d < |w'.chains| && d != c
      ensures ChainOk(w', w'.chains[d])
    {
      ChainStaysOk(w, w', w.chains[d]);
    }
  }

  lemma {:induction false} RunKeepsInv(w: World, steps: seq<Step>)
    requires Unmarked(w) && MarksOnlyExported(w, steps)
    ensures Inv(RunFrom(w, steps))
  {
    if |steps| > 0 {
      var before, step := RunFrom(w, Init(steps)), Last(steps);
      RunKeepsInv(w, Init(steps));
      if step.Tick? || step.Promote? || step.Retire? {
        StoreStepKeepsInv(before, step);
      } else if step.c < |before.chains| {
        ChainStepKeepsInv(before, step.c, step);
      }
    }
  }

  /** Whatever is at or before the mark was in an export read that an index update followed, and is indexed unless it was set aside. */
  lemma MarkCoversWhatItClaims(w: World, steps: seq<Step>, p: Promotion)
    requires Unmarked(w) && MarksOnlyExported(w, steps)
    requires p in RunFrom(w, steps).promotions && RunFrom(w, steps).mark.Some? && p.at <= RunFrom(w, steps).mark.value
    ensures p in RunFrom(w, steps).absorbed
    ensures p in RunFrom(w, steps).indexed || p in RunFrom(w, steps).missed
  {
    RunKeepsInv(w, steps);
    assert p in RunFrom(w, steps).absorbed;
  }

  /**
   * Never false-fresh: in every interleaving in which each marking chain's export completed, when no
   * promotion is newer than the mark, every promotion was in an export read that a completed index
   * update followed, and every one no export set aside is in the index.
   */
  lemma NeverFalseFresh(w: World, steps: seq<Step>)
    requires Unmarked(w) && MarksOnlyExported(w, steps) && MeasuresFresh(RunFrom(w, steps))
    ensures var end := RunFrom(w, steps);
            end.promotions <= end.absorbed && end.promotions - end.missed <= end.indexed
  {
    var end := RunFrom(w, steps);
    forall p | p in end.promotions
      ensures p in end.absorbed && (p in end.indexed || p in end.missed)
    {
      MarkCoversWhatItClaims(w, steps, p);
    }
  }

  // ---------- when a mark tells the truth ----------

  /** Everything at or before the mark is indexed, or was set aside. */
  ghost predicate Truthful(w: World) {
    w.mark.Some? ==> Covers(w.promotions, w.mark.value, w.indexed + w.missed)
  }

  lemma StepFrom(w: World, steps: seq<Step>, step: Step)
    ensures RunFrom(w, steps + [step]) == Next(RunFrom(w, steps), step)
  {
    assert Init(steps + [step]) == steps;
  }

  lemma ThreeSteps(w: World, a: Step, b: Step, d: Step)
    ensures RunFrom(w, [a, b, d]) == Next(Next(Next(w, a), b), d)
  {
    StepFrom(w, [], a);
    StepFrom(w, [a], b);
    StepFrom(w, [a, b], d);
    assert [] + [a] == [a] && [a] + [b] == [a, b] && [a, b] + [d] == [a, b, d];
  }

  function FailedCycle(c: nat, partial: set<Promotion>): seq<Step> {
    [ExportFailed(c, partial), IndexDone(c), Mark(c)]
  }

  lemma AfterFailedExport(w: World, c: nat, partial: set<Promotion>)
    requires c < |w.chains| && (w.chains[c].Sampled? || w.chains[c].Reading?)
    ensures Next(w, ExportFailed(c, partial)) ==
            w.(chains := w.chains[c := Exported(w.chains[c].watermark, false)], tree := w.tree + partial * Captured(w.chains[c]))
  {
  }

  lemma AfterUpdateAndMark(w: World, c: nat)
    requires c < |w.chains| && w.chains[c].Exported?
    ensures var end := Next(Next(w, IndexDone(c)), Mark(c));
            end.promotions == w.promotions && end.mark == Some(w.chains[c].watermark) && end.missed == w.missed &&
            end.indexed == w.indexed + w.tree && end.absorbed == w.absorbed + w.read
  {
  }

  lemma FailedCycleEnds(w: World, c: nat, partial: set<Promotion>)
    requires c < |w.chains| && (w.chains[c].Sampled? || w.chains[c].Reading?)
    ensures var end := RunFrom(w, FailedCycle(c, partial));
            end.promotions == w.promotions && end.mark == Some(w.chains[c].watermark) && end.missed == w.missed &&
            end.indexed == w.indexed + (w.tree + partial * Captured(w.chains[c])) && end.absorbed == w.absorbed + w.read
  {
    ThreeSteps(w, ExportFailed(c, partial), IndexDone(c), Mark(c));
    AfterFailedExport(w, c, partial);
    AfterUpdateAndMark(Next(w, ExportFailed(c, partial)), c);
  }

  /**
   * An export fails, the index update goes through and marks: the mark is truthful exactly when
   * every promotion up to the watermark had been written or indexed before, was set aside, or is
   * among the files the failing export still wrote.
   */
  lemma FailedExportMarkIff(w: World, c: nat, partial: set<Promotion>)
    requires c < |w.chains| && (w.chains[c].Sampled? || w.chains[c].Reading?)
    ensures var chain := w.chains[c];
            Truthful(RunFrom(w, FailedCycle(c, partial))) <==>
            forall p :: p in w.promotions && p.at <= chain.watermark ==>
              p in w.tree || p in w.indexed || p in w.missed || (p in partial && p in Captured(chain))
  {
    FailedCycleEnds(w, c, partial);
  }

  /** Step i of the run wrote the promotion's file. */
  ghost predicate WritesAt(w: World, steps: seq<Step>, i: nat, p: Promotion)
    requires i < |steps|
  {
    WritesNow(RunFrom(w, steps[..i]), steps[i], p)
  }

  predicate WritesNow(w: World, step: Step, p: Promotion) {
    (step.ExportDone? || step.ExportRetried? || step.ExportFailed?) && step.c < |w.chains| &&
    p in Captured(w.chains[step.c]) && (if step.ExportDone? then p !in step.setAside else p in step.partial)
  }

  /** Step i of the run completed an export that had read the promotion and set it aside. */
  ghost predicate MissesAt(w: World, steps: seq<Step>, i: nat, p: Promotion)
    requires i < |steps|
  {
    MissesNow(RunFrom(w, steps[..i]), steps[i], p)
  }

  predicate MissesNow(w: World, step: Step, p: Promotion) {
    step.ExportDone? && step.c < |w.chains| && p in Captured(w.chains[step.c]) && p in step.setAside
  }

  /** Step i of the run completed an index update. */
  ghost predicate UpdatesAt(w: World, steps: seq<Step>, i: nat)
    requires i < |steps|
  {
    UpdatesNow(RunFrom(w, steps[..i]), steps[i])
  }

  predicate UpdatesNow(w: World, step: Step) {
    step.IndexDone? && step.c < |w.chains| && w.chains[step.c].Exported?
  }

  ghost predicate WrittenBy(w: World, steps: seq<Step>, p: Promotion) {
    p in w.tree || exists i: nat :: i < |steps| && WritesAt(w, steps, i, p)
  }

  ghost predicate SetAsideBy(w: World, steps: seq<Step>, p: Promotion) {
    p in w.missed || exists i: nat :: i < |steps| && MissesAt(w, steps, i, p)
  }

  /** Some index update completed after the file was written. */
  ghost predicate ReachedIndex(w: World, steps: seq<Step>, p: Promotion) {
    p in w.indexed || exists j: nat :: j < |steps| && UpdatesAt(w, steps, j) && WrittenBy(w, steps[..j], p)
  }

  lemma OneStepMore(w: World, step: Step, p: Promotion)
    ensures p in Next(w, step).tree <==> p in w.tree || WritesNow(w, step, p)
    ensures p in Next(w, step).missed <==> p in w.missed || MissesNow(w, step, p)
    ensures p in Next(w, step).indexed <==> p in w.indexed || (UpdatesNow(w, step) && p in w.tree)
  {
  }

  /** Steps of a shorter run are steps of the longer one. */
  lemma SamePrefix(w: World, steps: seq<Step>, i: nat, p: Promotion)
    requires |steps| > 0 && i < |steps| - 1
    ensures WritesAt(w, steps, i, p) == WritesAt(w, Init(steps), i, p)
    ensures MissesAt(w, steps, i, p) == MissesAt(w, Init(steps), i, p)
    ensures UpdatesAt(w, steps, i) == UpdatesAt(w, Init(steps), i)
    ensures steps[..i] == Init(steps)[..i]
  {
    assert steps[..i] == Init(steps)[..i];
  }

  lemma WrittenSnoc(w: World, steps: seq<Step>, p: Promotion)
    requires |steps| > 0
    ensures WrittenBy(w, steps, p) <==> WrittenBy(w, Init(steps), p) || WritesNow(RunFrom(w, Init(steps)), Last(steps), p)
  {
    var n := |steps| - 1;
    assert steps[..n] == Init(steps);
    forall i: nat | i < n
      ensures WritesAt(w, steps, i, p) == WritesAt(w, Init(steps), i, p)
    {
      SamePrefix(w, steps, i, p);
    }
    assert WritesAt(w, steps, n, p) == WritesNow(RunFrom(w, Init(steps)), Last(steps), p);
  }

  lemma SetAsideSnoc(w: World, steps: seq<Step>, p: Promotion)
    requires |steps| > 0
    ensures SetAsideBy(w, steps, p) <==> SetAsideBy(w, Init(steps), p) || MissesNow(RunFrom(w, Init(steps)), Last(steps), p)
  {
    var n := |steps| - 1;
    assert steps[..n] == Init(steps);
    forall i: nat | i < n
      ensures MissesAt(w, steps, i, p) == MissesAt(w, Init(steps), i, p)
    {
      SamePrefix(w, steps, i, p);
    }
    assert MissesAt(w, steps, n, p) == MissesNow(RunFrom(w, Init(steps)), Last(steps), p);
  }

  lemma ReachedSnoc(w: World, steps: seq<Step>, p: Promotion)
    requires |steps| > 0
    ensures ReachedIndex(w, steps, p) <==>
            ReachedIndex(w, Init(steps), p) ||
            (UpdatesNow(RunFrom(w, Init(steps)), Last(steps)) && WrittenBy(w, Init(steps), p))
  {
    var n := |steps| - 1;
    assert steps[..n] == Init(steps);
    forall j: nat | j < n
      ensures UpdatesAt(w, steps, j) == UpdatesAt(w, Init(steps), j) && steps[..j] == Init(steps)[..j]
    {
      SamePrefix(w, steps, j, p);
    }
    assert UpdatesAt(w, steps, n) == UpdatesNow(RunFrom(w, Init(steps)), Last(steps));
  }

  /** The sets of the state are the history of the run. */
  lemma {:induction false} SetsAreHistory(w: World, steps: seq<Step>, p: Promotion)
    ensures p in RunFrom(w, steps).tree <==> WrittenBy(w, steps, p)
    ensures p in RunFrom(w, steps).missed <==> SetAsideBy(w, steps, p)
    ensures p in RunFrom(w, steps).indexed <==> ReachedIndex(w, steps, p)
  {
    if |steps| > 0 {
      SetsAreHistory(w, Init(steps), p);
      OneStepMore(RunFrom(w, Init(steps)), Last(steps), p);
      WrittenSnoc(w, steps, p);
      SetAsideSnoc(w, steps, p);
      ReachedSnoc(w, steps, p);
    }
  }

  /**
   * Over whole runs of interleaved chains, whatever their exports did: a mark is truthful exactly
   * when every promotion up to its watermark was written by some export, and indexed by some update
   * after that, or was set aside by an export that completed.
   */
  lemma MarkIsTruthfulIff(w: World, steps: seq<Step>, c: nat)
    requires c < |RunFrom(w, steps).chains| && RunFrom(w, steps).chains[c].Updated?
    ensures var before := RunFrom(w, steps);
            Truthful(RunFrom(w, steps + [Mark(c)])) <==>
            forall p :: p in before.promotions && p.at <= before.chains[c].watermark ==>
              ReachedIndex(w, steps, p) || SetAsideBy(w, steps, p)
  {
    var before := RunFrom(w, steps);
    StepFrom(w, steps, Mark(c));
    forall p
      ensures p in before.indexed + before.missed <==> ReachedIndex(w, steps, p) || SetAsideBy(w, steps, p)
    {
      SetsAreHistory(w, steps, p);
    }
  }

  // ---------- an export that fails ----------

  /** A store with one promotion and one chain, nothing exported yet. */
  const LATE := World(5, 0, {Promotion("m", 3)}, {}, {}, {}, {}, {}, None, [Idle])

  const SAMPLED := LATE.(lastSample := 5, chains := [Sampled(5)])

  /** The index step does not look at the export's outcome: one failed export and the gauge says fresh. */
  lemma FailedExportMeasuresFresh()
    ensures Unmarked(LATE) && Next(LATE, Sample(0)) == SAMPLED
    ensures var end := RunFrom(SAMPLED, FailedCycle(0, {}));
            MeasuresFresh(end) && !Truthful(end) && !(end.promotions <= end.absorbed)
  {
    FailedCycleEnds(SAMPLED, 0, {});
    var end := RunFrom(SAMPLED, FailedCycle(0, {}));
    assert Promotion("m", 3) in end.promotions;
  }

  // ---------- a cycle nobody disturbs ----------

  function GoodCycle(c: nat): seq<Step> {
    [Sample(c)] + [ExportRead(c)] + [ExportDone(c, {})] + [IndexDone(c)] + [Mark(c)]
  }

  /** Sampling and reading: the store as it is now, under a watermark of now. */
  lemma SamplesAndReads(w: World, c: nat)
    requires c < |w.chains| && w.chains[c].Idle? && w.now >= w.lastSample
    ensures RunFrom(w, [Sample(c)] + [ExportRead(c)]) ==
            w.(chains := w.chains[c := Reading(w.now, w.promotions)], lastSample := w.now)
  {
    StepFrom(w, [], Sample(c));
    StepFrom(w, [Sample(c)], ExportRead(c));
    assert [] + [Sample(c)] == [Sample(c)];
    assert w.chains[c := Sampled(w.now)][c := Reading(w.now, w.promotions)] == w.chains[c := Reading(w.now, w.promotions)];
  }

  /**
   * A cycle that nothing disturbs and in which nothing fails: every promotion there is is written, read and
   * indexed, and the mark is the time the cycle began; so the gauge is fresh when no promotion is from the future.
   */
  lemma GoodCycleIsFresh(w: World, c: nat)
    requires c < |w.chains| && w.chains[c].Idle? && w.now >= w.lastSample
    ensures var end := RunFrom(w, GoodCycle(c));
            end.mark == Some(w.now) && end.promotions == w.promotions && end.missed == w.missed &&
            end.promotions <= end.tree && end.promotions <= end.indexed && end.promotions <= end.absorbed &&
            (MeasuresFresh(end) <==> forall p :: p in w.promotions ==> p.at <= w.now)
  {
    SamplesAndReads(w, c);
    var before := [Sample(c)] + [ExportRead(c)];
    var read := RunFrom(w, before);
    StepFrom(w, before, ExportDone(c, {}));
    var done := RunFrom(w, before + [ExportDone(c, {})]);
    assert done.chains[c] == Exported(w.now, true) && w.promotions <= done.tree && w.promotions <= done.read;
    StepFrom(w, before + [ExportDone(c, {})], IndexDone(c));
    StepFrom(w, before + [ExportDone(c, {})] + [IndexDone(c)], Mark(c));
    AfterUpdateAndMark(done, c);
  }

  /** And a promotion after a mark makes it stale, whatever ran. */
  lemma PromotionMakesStale(w: World, p: Promotion)
    requires p.at > w.lastSample && (w.mark.Some? ==> w.mark.value <= w.lastSample)
    ensures !MeasuresFresh(Next(w, Promote(p)))
  {
    assert p in Next(w, Promote(p)).promotions;
  }

  // ---------- one cycle as the daemon runs it ----------

  datatype Attempt = Success | Transient | Permanent

  /** How withRetry ends: the first attempt that is not transient decides, within the retries allowed. */
  predicate RetryOutcome(attempts: seq<Attempt>, maxRetries: nat) {
    exists k :: 0 <= k <= maxRetries && k < |attempts| && attempts[k] == Success && AllTransient(attempts[..k])
  }

  predicate AllTransient(attempts: seq<Attempt>) {
    forall a :: a in attempts ==> a == Transient
  }

  lemma RetrySpelledOut(attempts: seq<Attempt>, maxRetries: nat)
    requires |attempts| > maxRetries
    ensures RetryOutcome(attempts, maxRetries) <==>
            exists k :: 0 <= k <= maxRetries && attempts[k] == Success && forall j :: 0 <= j < k ==> attempts[j] == Transient
  {
    forall k | 0 <= k < |attempts|
      ensures AllTransient(attempts[..k]) <==> forall j :: 0 <= j < k ==> attempts[j] == Transient
    {
      if AllTransient(attempts[..k]) {
        forall j | 0 <= j < k
          ensures attempts[j] == Transient
        {
          assert attempts[..k][j] in attempts[..k];
        }
      }
    }
  }

  /** A permanent error behind transient ones decides: no later attempt counts. */
  lemma DecidedEarly(attempts: seq<Attempt>, at: nat)
    requires at < |attempts| && AllTransient(attempts[..at]) && attempts[at] == Permanent
    ensures forall k :: 0 <= k < |attempts| && attempts[k] == Success ==> !AllTransient(attempts[..k])
  {
    forall k | 0 <= k < at
      ensures attempts[k] == Transient
    {
      assert attempts[..at][k] in attempts[..at];
    }
    forall k | at < k < |attempts|
      ensures !AllTransient(attempts[..k])
    {
      assert attempts[..k][at] in attempts[..k];
    }
  }

  method WithRetry(attempts: seq<Attempt>, maxRetries: nat) returns (ok: bool)
    requires |attempts| > maxRetries
    ensures ok == RetryOutcome(attempts, maxRetries)
    ensures ok <==> exists k :: 0 <= k <= maxRetries && attempts[k] == Success && forall j :: 0 <= j < k ==> attempts[j] == Transient
  {
    RetrySpelledOut(attempts, maxRetries);
    for attempt := 0 to maxRetries + 1
      invariant AllTransient(attempts[..attempt])
    {
      if attempts[attempt] == Success {
        return true;
      }
      if attempts[attempt] == Permanent {
        DecidedEarly(attempts, attempt);
        return false;
      }
      assert attempts[..attempt + 1] == attempts[..attempt] + [attempts[attempt]];
    }
    assert forall k :: 0 <= k <= maxRetries ==> attempts[k] in attempts[..maxRetries + 1];
    ok := false;
  }

  /** The index-state row of one tenant. */
  class IndexState {
    var lastIndexedAt: Option<int>

    constructor ()
      ensures lastIndexedAt == None
    {
      lastIndexedAt := None;
    }

    /**
     * A failed update leaves the mark; a completed one moves it to the watermark, unless storing
     * fails. In every world whose chain c is at this point, these are the machine's own steps.
     */
    method IndexUpdateStep(enabled: bool, attempts: seq<Attempt>, maxRetries: nat, markStores: bool, indexedAt: int)
      returns (updated: bool)
      requires |attempts| > maxRetries
      modifies this
      ensures updated == (enabled && RetryOutcome(attempts, maxRetries))
      ensures lastIndexedAt == if updated && markStores then Some(indexedAt) else old(lastIndexedAt)
      ensures forall w, c: nat :: AboutToUpdate(w, c, indexedAt) && w.mark == old(lastIndexedAt) ==>
                RunFrom(w, IndexSteps(c, updated, markStores)).mark == lastIndexedAt
    {
      ghost var before := lastIndexedAt;
      if !enabled {
        updated := false;
      } else {
        updated := WithRetry(attempts, maxRetries);
        if updated && markStores {
          lastIndexedAt := Some(indexedAt);
        }
      }
      forall w, c: nat | AboutToUpdate(w, c, indexedAt) && w.mark == before
        ensures RunFrom(w, IndexSteps(c, updated, markStores)).mark == lastIndexedAt
      {
        IndexStepsMark(w, c, updated, markStores);
      }
    }
  }

  ghost predicate AboutToUpdate(w: World, c: nat, indexedAt: int) {
    c < |w.chains| && w.chains[c].Exported? && w.chains[c].watermark == indexedAt
  }

  /** The steps of the machine that one index update step amounts to. */
  function IndexSteps(c: nat, updated: bool, markStores: bool): seq<Step> {
    if !updated then [IndexFailed(c)]
    else if markStores then [IndexDone(c)] + [Mark(c)]
    else [IndexDone(c)] + [MarkFailed(c)]
  }

  lemma UpdateThen(w: World, c: nat, last: Step)
    requires c < |w.chains| && w.chains[c].Exported? && (last == Mark(c) || last == MarkFailed(c))
    ensures RunFrom(w, [IndexDone(c)] + [last]).mark == if last.Mark? then Some(w.chains[c].watermark) else w.mark
  {
    var s1 := ChainNext(w, c, IndexDone(c));
    StepFrom(w, [], IndexDone(c));
    assert [] + [IndexDone(c)] == [IndexDone(c)];
    assert RunFrom(w, [IndexDone(c)]) == s1;
    StepFrom(w, [IndexDone(c)], last);
  }

  lemma IndexStepsMark(w: World, c: nat, updated: bool, markStores: bool)
    requires c < |w.chains| && w.chains[c].Exported?
    ensures RunFrom(w, IndexSteps(c, updated, markStores)).mark ==
            if updated && markStores then Some(w.chains[c].watermark) else w.mark
  {
    if updated {
      UpdateThen(w, c, if markStores then Mark(c) else MarkFailed(c));
    } else {
      StepFrom(w, [], IndexFailed(c));
      assert [] + [IndexFailed(c)] == [IndexFailed(c)];
    }
  }
}
