/**
 * Whole daemon cycles over the exporter's own steps (apps/edge-daemon/src/cycle.ts): the watermark
 * is sampled, the export runs step by step while other processes change the store, the index update
 * takes in whatever files are there, and the mark is stored. What an export did is not assumed but
 * is what its steps leave in the tree.
 */
module CycleRuns {
  import opened Prelude
  import opened GitExporter
  import E = ExportRuns

  datatype Phase =
    | Resting
    | Watermarked(watermark: int)
    | Exporting(watermark: int)
    | ExportOver(watermark: int, completed: bool)
    | Reindexed(watermark: int, completed: bool)

  /** The exporter's world, the indexed copy of the tree, the stored mark, the newest sample, the cycle. */
  datatype Cycle = Cycle(x: E.World, index: Tree, mark: Option<int>, lastSample: int, phase: Phase)

  datatype Event =
    | PutMemory(m: Memory)
    | DeleteMemory(id: string)
    | Tick(ms: nat)
    | Sample
    | BeginExport
    | ReadStore
    | Work(p: Progress)
    | FinishExport
    | ExportThrows(p: Progress, retried: bool)
    | SkipExport
    | Reindex(ok: bool)
    | StoreMark(ok: bool)
    | ProcessDies(p: Progress)

  predicate Finished(x: E.World) {
    x.run.Some? && x.run.value.todo == Some([])
  }

  /** A put takes effect only with a stamp at or after the clock and later than the newest watermark. */
  function Next(format: Format, c: Cycle, e: Event): Cycle {
    match e
    case PutMemory(m) => if m.updatedAt > c.lastSample then c.(x := E.Next(format, c.x, E.Put(m))) else c
    case DeleteMemory(id) => c.(x := E.Next(format, c.x, E.Delete(id)))
    case Tick(ms) => c.(x := E.Next(format, c.x, E.Tick(ms)))
    case Sample => if c.phase.Resting? then c.(phase := Watermarked(c.x.now), lastSample := c.x.now) else c
    case BeginExport =>
      if c.phase.Watermarked? then c.(phase := Exporting(c.phase.watermark), x := E.Next(format, c.x, E.Start)) else c
    case ReadStore => if c.phase.Exporting? then c.(x := E.Next(format, c.x, E.ReadStore)) else c
    case Work(p) => if c.phase.Exporting? then c.(x := E.Next(format, c.x, E.Work(p))) else c
    case FinishExport =>
      if c.phase.Exporting? && Finished(c.x)
        then c.(phase := ExportOver(c.phase.watermark, true), x := E.Next(format, c.x, E.SetCursor)) else c
    case ExportThrows(p, retried) =>
      if c.phase.Exporting?
        then c.(phase := if retried then Watermarked(c.phase.watermark) else ExportOver(c.phase.watermark, false),
                x := E.Next(format, c.x, E.Die(p)))
        else c
    case SkipExport => if c.phase.Watermarked? then c.(phase := ExportOver(c.phase.watermark, false)) else c
    case Reindex(ok) =>
      if !c.phase.ExportOver? then c
      else if ok then c.(phase := Reindexed(c.phase.watermark, c.phase.completed), index := c.x.tree)
      else c.(phase := Resting)
    case StoreMark(ok) =>
      if !c.phase.Reindexed? then c
      else if ok then c.(phase := Resting, mark := Some(c.phase.watermark))
      else c.(phase := Resting)
    case ProcessDies(p) => c.(phase := Resting, x := E.Next(format, c.x, E.Die(p)))
  }

  function RunFrom(format: Format, c: Cycle, events: seq<Event>): Cycle {
    if |events| == 0 then c else Next(format, RunFrom(format, c, Init(events)), Last(events))
  }

  /** Any store, tree and index; no cycle yet. */
  ghost predicate FirstCycle(c: Cycle) {
    E.FirstTime(c.x) && c.mark.None? && c.phase.Resting? && c.lastSample <= c.x.now
  }

  /** This mark closes a cycle whose export did not complete. */
  predicate MarksUnfinished(c: Cycle, e: Event) {
    e.StoreMark? && e.ok && c.phase.Reindexed? && !c.phase.completed
  }

  predicate MarksOnlyFinished(format: Format, c: Cycle, events: seq<Event>) {
    |events| == 0 ||
    (MarksOnlyFinished(format, c, Init(events)) && !MarksUnfinished(RunFrom(format, c, Init(events)), Last(events)))
  }

  /** The gauge: measured, and no promotion newer than the mark. */
  ghost predicate MeasuresFresh(c: Cycle) {
    c.mark.Some? && forall m :: m in c.x.db ==> m.promotedAt <= c.mark.value
  }

  // ---------- the invariant ----------

  /** The version is in these files, never will be, or some export gave it up. */
  ghost predicate In(format: Format, files: Tree, setAside: set<Memory>, m: Memory) {
    Exported(format, files, m) || Exempt(format, m) || m in setAside
  }

  /** Every version stamped at or before the bound is in these files. */
  ghost predicate Kept(format: Format, c: Cycle, files: Tree, bound: int) {
    forall m :: m in c.x.db && m.updatedAt <= bound ==> In(format, files, c.x.setAside, m)
  }

  /** The run's items are current versions, or were replaced behind the newest sample; with them nothing older is missing. */
  ghost predicate RunOk(format: Format, c: Cycle) {
    c.x.run.Some? && c.x.run.value.todo.Some? ==>
      var items := c.x.run.value.todo.value;
      (forall item, m :: item in items && m in c.x.db && m.id == item.memory.id ==>
        m == item.memory || m.updatedAt > c.lastSample) &&
      (forall m :: m in c.x.db && m.updatedAt <= c.lastSample ==>
        In(format, c.x.tree, c.x.setAside, m) || E.Listed(items, m))
  }

  ghost predicate PhaseOk(format: Format, c: Cycle) {
    match c.phase
    case Resting => c.x.run.None?
    case Watermarked(watermark) => c.x.run.None? && watermark == c.lastSample
    case Exporting(watermark) => c.x.run.Some? && watermark == c.lastSample
    case ExportOver(watermark, completed) =>
      c.x.run.None? && watermark == c.lastSample && (completed ==> Kept(format, c, c.x.tree, watermark))
    case Reindexed(watermark, completed) =>
      c.x.run.None? && watermark == c.lastSample &&
      (completed ==> Kept(format, c, c.x.tree, watermark) && Kept(format, c, c.index, watermark))
  }

  ghost predicate MarkOk(format: Format, c: Cycle) {
    c.mark.Some? ==>
      c.mark.value <= c.lastSample && Kept(format, c, c.x.tree, c.mark.value) && Kept(format, c, c.index, c.mark.value)
  }

  ghost predicate Inv(format: Format, c: Cycle) {
    E.Inv(format, c.x) && c.lastSample <= c.x.now && RunOk(format, c) && PhaseOk(format, c) && MarkOk(format, c)
  }

  /** The store only loses versions, or gains ones stamped behind the newest sample. */
  lemma StoreChangeKeepsInv(format: Format, c: Cycle, c': Cycle)
    requires Inv(format, c) && E.Inv(format, c'.x) && c' == c.(x := c.x.(db := c'.x.db))
    requires forall m :: m in c'.x.db ==> m in c.x.db || m.updatedAt > c.lastSample
    ensures Inv(format, c')
  {
  }

  lemma PutKeepsInv(format: Format, c: Cycle, m: Memory)
    requires Inv(format, c)
    ensures Inv(format, Next(format, c, PutMemory(m)))
  {
    if m.updatedAt > c.lastSample {
      E.StepKeepsInv(format, c.x, E.Put(m));
      forall a | a in E.Without(c.x.db, m.id)
        ensures a in c.x.db
      {
        E.WithoutMember(c.x.db, m.id, a);
      }
      StoreChangeKeepsInv(format, c, Next(format, c, PutMemory(m)));
    }
  }

  lemma DeleteKeepsInv(format: Format, c: Cycle, id: string)
    requires Inv(format, c)
    ensures Inv(format, Next(format, c, DeleteMemory(id)))
  {
    E.StepKeepsInv(format, c.x, E.Delete(id));
    forall a | a in E.Without(c.x.db, id)
      ensures a in c.x.db
    {
      E.WithoutMember(c.x.db, id, a);
    }
    StoreChangeKeepsInv(format, c, Next(format, c, DeleteMemory(id)));
  }

  /** Sampling, ticking, beginning and skipping change no files and no versions. */
  lemma BookkeepingKeepsInv(format: Format, c: Cycle, e: Event)
    requires Inv(format, c) && (e.Tick? || e.Sample? || e.BeginExport? || e.SkipExport?)
    ensures Inv(format, Next(format, c, e))
  {
    if e.Tick? {
      E.StepKeepsInv(format, c.x, E.Tick(e.ms));
    } else if e.BeginExport? {
      E.StepKeepsInv(format, c.x, E.Start);
    }
  }

  lemma ReadKeepsInv(format: Format, c: Cycle)
    requires Inv(format, c)
    ensures Inv(format, Next(format, c, ReadStore))
  {
    if c.phase.Exporting? {
      E.StepKeepsInv(format, c.x, E.ReadStore);
      if c.x.run.value.todo.None? {
        CapturedAll(format, c);
      }
    }
  }

  /** What the read captures: current versions only, and every version that is not in the tree. */
  lemma CapturedAll(format: Format, c: Cycle)
    requires E.Inv(format, c.x)
    ensures var items := Changes(c.x.db, c.x.cursor);
            (forall item, m :: item in items && m in c.x.db && m.id == item.memory.id ==> m == item.memory) &&
            (forall m :: m in c.x.db ==> In(format, c.x.tree, c.x.setAside, m) || E.Listed(items, m))
  {
    E.ChangesShape(c.x.db, c.x.cursor);
    forall m | m in c.x.db && !In(format, c.x.tree, c.x.setAside, m)
      ensures E.Listed(Changes(c.x.db, c.x.cursor), m)
    {
      assert E.Settled(format, c.x, m) || Eligible(m, c.x.cursor);
      E.Captured(format, c.x, m);
    }
  }

  /** File work on the next item takes no version away that was stamped at or before the newest sample. */
  lemma WorkKeepsVersion(format: Format, c: Cycle, x': E.World, p: Progress, m: Memory)
    requires Inv(format, c) && E.Busy(c.x) && m in c.x.db && m.updatedAt <= c.lastSample
    requires In(format, c.x.tree, c.x.setAside, m) && c.x.setAside <= x'.setAside
    requires x'.tree == TreeAfter(format, c.x.tree, c.x.run.value.todo.value[0], p)
    ensures In(format, x'.tree, x'.setAside, m)
  {
    var item := c.x.run.value.todo.value[0];
    assert E.ItemOk(c.x, c.x.run.value.startedAt, item);
    if m.id != item.memory.id {
      OthersUntouched(format, c.x.tree, item, p, m);
    }
  }

  lemma WorkKeepsKept(format: Format, c: Cycle, c': Cycle, p: Progress, bound: int)
    requires Inv(format, c) && E.Busy(c.x) && bound <= c.lastSample && Kept(format, c, c.x.tree, bound)
    requires c'.x.db == c.x.db && c.x.setAside <= c'.x.setAside
    requires c'.x.tree == TreeAfter(format, c.x.tree, c.x.run.value.todo.value[0], p)
    ensures Kept(format, c', c'.x.tree, bound)
  {
    forall m | m in c'.x.db && m.updatedAt <= bound
      ensures In(format, c'.x.tree, c'.x.setAside, m)
    {
      WorkKeepsVersion(format, c, c'.x, p, m);
    }
  }

  lemma WorkKeepsRunOk(format: Format, c: Cycle, p: Progress)
    requires Inv(format, c) && c.phase.Exporting? && E.Busy(c.x)
    ensures RunOk(format, Next(format, c, Work(p)))
  {
    var c' := Next(format, c, Work(p));
    var items := c.x.run.value.todo.value;
    E.WorkedItemSettled(format, c.x, p);
    forall m | m in c.x.db && m.updatedAt <= c.lastSample
      ensures In(format, c'.x.tree, c'.x.setAside, m) || E.Listed(items[1..], m)
    {
      if In(format, c.x.tree, c.x.setAside, m) {
        WorkKeepsVersion(format, c, c'.x, p, m);
      } else if m != items[0].memory {
        E.ListedTail(items, m);
      }
    }
  }

  lemma WorkKeepsInv(format: Format, c: Cycle, p: Progress)
    requires Inv(format, c)
    ensures Inv(format, Next(format, c, Work(p)))
  {
    if c.phase.Exporting? && E.Busy(c.x) {
      E.StepKeepsInv(format, c.x, E.Work(p));
      WorkKeepsRunOk(format, c, p);
      if c.mark.Some? {
        WorkKeepsKept(format, c, Next(format, c, Work(p)), p, c.mark.value);
      }
    }
  }

  lemma FinishKeepsInv(format: Format, c: Cycle)
    requires Inv(format, c)
    ensures Inv(format, Next(format, c, FinishExport))
  {
    if c.phase.Exporting? && Finished(c.x) {
      E.StepKeepsInv(format, c.x, E.SetCursor);
      assert forall m :: !E.Listed([], m);
    }
  }

  /** An export that dies, and what becomes of the cycle. */
  lemma DieKeepsInv(format: Format, c: Cycle, p: Progress, phase: Phase)
    requires Inv(format, c)
    requires phase == Resting || (c.phase.Exporting? &&
             (phase == Watermarked(c.phase.watermark) || phase == ExportOver(c.phase.watermark, false)))
    ensures Inv(format, c.(phase := phase, x := E.Next(format, c.x, E.Die(p))))
  {
    var c' := c.(phase := phase, x := E.Next(format, c.x, E.Die(p)));
    E.StepKeepsInv(format, c.x, E.Die(p));
    if E.Busy(c.x) && c.mark.Some? {
      WorkKeepsKept(format, c, c', p, c.mark.value);
    }
  }

  lemma {:induction false} RunKeepsInv(format: Format, c: Cycle, events: seq<Event>)
    requires FirstCycle(c) && MarksOnlyFinished(format, c, events)
    ensures Inv(format, RunFrom(format, c, events))
  {
    if |events| > 0 {
      RunKeepsInv(format, c, Init(events));
      EventKeepsInv(format, RunFrom(format, c, Init(events)), Last(events));
    }
  }

  lemma EventKeepsInv(format: Format, c: Cycle, e: Event)
    requires Inv(format, c) && !MarksUnfinished(c, e)
    ensures Inv(format, Next(format, c, e))
  {
    match e
    case PutMemory(m) => PutKeepsInv(format, c, m);
    case DeleteMemory(id) => DeleteKeepsInv(format, c, id);
    case ReadStore => ReadKeepsInv(format, c);
    case Work(p) => WorkKeepsInv(format, c, p);
    case FinishExport => FinishKeepsInv(format, c);
    case ExportThrows(p, retried) =>
      if c.phase.Exporting? {
        DieKeepsInv(format, c, p, if retried then Watermarked(c.phase.watermark) else ExportOver(c.phase.watermark, false));
      }
    case ProcessDies(p) => DieKeepsInv(format, c, p, Resting);
    case Reindex(ok) =>
    case StoreMark(ok) =>
    case Tick(_) => BookkeepingKeepsInv(format, c, e);
    case Sample => BookkeepingKeepsInv(format, c, e);
    case BeginExport => BookkeepingKeepsInv(format, c, e);
    case SkipExport => BookkeepingKeepsInv(format, c, e);
  }

  // ---------- what a mark is worth ----------

  /**
   * Over every run of cycles in which each mark closes a completed export: a version stamped at or
   * before the mark is in the index, unless it is exempt or an export gave it up.
   */
  lemma MarkedVersionsAreIndexed(format: Format, c: Cycle, events: seq<Event>, m: Memory)
    requires FirstCycle(c) && MarksOnlyFinished(format, c, events)
    requires var end := RunFrom(format, c, events);
             m in end.x.db && end.mark.Some? && m.updatedAt <= end.mark.value
    ensures var end := RunFrom(format, c, events);
            Exported(format, end.index, m) || Exempt(format, m) || m in end.x.setAside
  {
    RunKeepsInv(format, c, events);
  }

  /**
   * So a fresh gauge is not false: every memory that is as it was promoted is in the index, unless
   * it is exempt or an export gave it up.
   */
  lemma FreshGaugeMeansIndexed(format: Format, c: Cycle, events: seq<Event>, m: Memory)
    requires FirstCycle(c) && MarksOnlyFinished(format, c, events)
    requires var end := RunFrom(format, c, events);
             MeasuresFresh(end) && m in end.x.db && m.updatedAt == m.promotedAt
    ensures var end := RunFrom(format, c, events);
            Exported(format, end.index, m) || Exempt(format, m) || m in end.x.setAside
  {
    MarkedVersionsAreIndexed(format, c, events, m);
  }

  /** Every exportable version stamped at or before the bound is in the index. */
  ghost predicate IndexComplete(format: Format, c: Cycle, bound: int) {
    forall m :: m in c.x.db && m.updatedAt <= bound && !Exempt(format, m) ==> Exported(format, c.index, m)
  }

  /**
   * Exactly when the mark a cycle is about to store is complete: when each version that some export
   * gave up is in the index after all. Nothing but a failed write can leave a version out.
   */
  lemma MarkIsCompleteIff(format: Format, c: Cycle, events: seq<Event>)
    requires FirstCycle(c) && MarksOnlyFinished(format, c, events)
    requires RunFrom(format, c, events).phase.Reindexed? && RunFrom(format, c, events).phase.completed
    ensures var end := RunFrom(format, c, events);
            IndexComplete(format, end, end.phase.watermark) <==>
            forall m :: m in end.x.setAside && m in end.x.db && m.updatedAt <= end.phase.watermark && !Exempt(format, m) ==>
              Exported(format, end.index, m)
  {
    RunKeepsInv(format, c, events);
  }

  // ---------- a write that fails ----------

  /** The store with one memory, as it was promoted. */
  const BEFORE := Cycle(E.FRESH, map[], None, 0, Resting)

  const ONE_CYCLE := [Sample, BeginExport, ReadStore, Work(NotStarted), FinishExport, Reindex(true), StoreMark(true)]

  lemma OneMore(format: Format, c: Cycle, n: nat, before: Cycle, after: Cycle)
    requires n < |ONE_CYCLE| && RunFrom(format, c, ONE_CYCLE[..n]) == before && Next(format, before, ONE_CYCLE[n]) == after
    ensures RunFrom(format, c, ONE_CYCLE[..n + 1]) == after
  {
    assert Init(ONE_CYCLE[..n + 1]) == ONE_CYCLE[..n];
  }

  /** The cycle between the export's read and its end, and around it. */
  function During(phase: Phase, setAside: set<Memory>, cursor: Option<int>, run: Option<E.Export>, mark: Option<int>): Cycle {
    Cycle(E.World(5, [E.ONLY], map[], cursor, setAside, run), map[], mark, 5, phase)
  }

  /** Up to the start of the export. */
  lemma Begins(format: Format)
    ensures RunFrom(format, BEFORE, ONE_CYCLE[..2]) == During(Exporting(5), {}, None, Some(E.Export(5, None)), None)
  {
    OneMore(format, BEFORE, 0, BEFORE, During(Watermarked(5), {}, None, None, None));
    OneMore(format, BEFORE, 1, During(Watermarked(5), {}, None, None, None),
            During(Exporting(5), {}, None, Some(E.Export(5, None)), None));
  }

  /** Up to and including the write that fails. */
  lemma WriteFails(format: Format)
    requires format(E.ONLY).Some?
    requires RunFrom(format, BEFORE, ONE_CYCLE[..2]) == During(Exporting(5), {}, None, Some(E.Export(5, None)), None)
    ensures RunFrom(format, BEFORE, ONE_CYCLE[..4]) == During(Exporting(5), {E.ONLY}, None, Some(E.Export(5, Some([]))), None)
  {
    E.OnlyChange();
    OneMore(format, BEFORE, 2, During(Exporting(5), {}, None, Some(E.Export(5, None)), None),
            During(Exporting(5), {}, None, Some(E.Export(5, Some([E.ITEM]))), None));
    OneMore(format, BEFORE, 3, During(Exporting(5), {}, None, Some(E.Export(5, Some([E.ITEM]))), None),
            During(Exporting(5), {E.ONLY}, None, Some(E.Export(5, Some([]))), None));
  }

  /** The export completes and the index update goes through. */
  lemma Completes(format: Format)
    requires RunFrom(format, BEFORE, ONE_CYCLE[..4]) == During(Exporting(5), {E.ONLY}, None, Some(E.Export(5, Some([]))), None)
    ensures RunFrom(format, BEFORE, ONE_CYCLE[..6]) == During(Reindexed(5, true), {E.ONLY}, Some(5), None, None)
  {
    OneMore(format, BEFORE, 4, During(Exporting(5), {E.ONLY}, None, Some(E.Export(5, Some([]))), None),
            During(ExportOver(5, true), {E.ONLY}, Some(5), None, None));
    OneMore(format, BEFORE, 5, During(ExportOver(5, true), {E.ONLY}, Some(5), None, None),
            During(Reindexed(5, true), {E.ONLY}, Some(5), None, None));
  }

  lemma Marks(format: Format)
    requires RunFrom(format, BEFORE, ONE_CYCLE[..6]) == During(Reindexed(5, true), {E.ONLY}, Some(5), None, None)
    ensures RunFrom(format, BEFORE, ONE_CYCLE[..7]) == During(Resting, {E.ONLY}, Some(5), None, Some(5))
  {
    OneMore(format, BEFORE, 6, During(Reindexed(5, true), {E.ONLY}, Some(5), None, None),
            During(Resting, {E.ONLY}, Some(5), None, Some(5)));
  }

  /**
   * The export sets one failed write aside and completes; the cycle marks; the gauge says fresh, and
   * the promotion is in no index.
   */
  lemma FailedWriteMeasuresFresh(format: Format)
    requires format(E.ONLY).Some?
    ensures var end := RunFrom(format, BEFORE, ONE_CYCLE);
            FirstCycle(BEFORE) && MarksOnlyFinished(format, BEFORE, ONE_CYCLE) && MeasuresFresh(end) &&
            E.ONLY in end.x.db && !Exempt(format, E.ONLY) && !Exported(format, end.index, E.ONLY)
  {
    Begins(format);
    WriteFails(format);
    Completes(format);
    Marks(format);
    E.OnlyChange();
    OnlyFinished(format, During(Reindexed(5, true), {E.ONLY}, Some(5), None, None));
    assert ONE_CYCLE[..7] == ONE_CYCLE;
    ChangesMember([E.ONLY], None, E.ITEM);
  }

  /** The one mark of that cycle closes a completed export. */
  lemma OnlyFinished(format: Format, c6: Cycle)
    requires RunFrom(format, BEFORE, ONE_CYCLE[..6]) == c6 && c6.phase == Reindexed(5, true)
    ensures MarksOnlyFinished(format, BEFORE, ONE_CYCLE)
  {
    assert ONE_CYCLE[..7] == ONE_CYCLE;
    NoMarkYet(format, 6);
    assert Init(ONE_CYCLE) == ONE_CYCLE[..6];
  }

  lemma {:induction false} NoMarkYet(format: Format, n: nat)
    requires n <= 6
    ensures MarksOnlyFinished(format, BEFORE, ONE_CYCLE[..n])
  {
    if n > 0 {
      NoMarkYet(format, n - 1);
      assert Init(ONE_CYCLE[..n]) == ONE_CYCLE[..n - 1];
      assert !Last(ONE_CYCLE[..n]).StoreMark?;
    }
  }

  // ---------- a cycle nobody disturbs ----------

  function AllWork(n: nat): seq<Event> {
    if n == 0 then [] else AllWork(n - 1) + [Work(Complete)]
  }

  function QuietCycle(n: nat): seq<Event> {
    [Sample] + [BeginExport] + [ReadStore] + AllWork(n) + [FinishExport] + [Reindex(true)] + [StoreMark(true)]
  }

  lemma RunSnoc(format: Format, c: Cycle, events: seq<Event>, e: Event)
    ensures RunFrom(format, c, events + [e]) == Next(format, RunFrom(format, c, events), e)
  {
    assert Init(events + [e]) == events;
  }

  /** Up to the read: everything that is due is captured. */
  lemma QuietRead(format: Format, c: Cycle)
    requires c.phase.Resting? && c.x.run.None?
    ensures RunFrom(format, c, [Sample] + [BeginExport] + [ReadStore]) ==
            c.(phase := Exporting(c.x.now), lastSample := c.x.now,
               x := c.x.(run := Some(E.Export(c.x.now, Some(Changes(c.x.db, c.x.cursor))))))
  {
    RunSnoc(format, c, [], Sample);
    RunSnoc(format, c, [Sample], BeginExport);
    RunSnoc(format, c, [Sample] + [BeginExport], ReadStore);
    assert [] + [Sample] == [Sample];
  }

  lemma {:induction false} QuietWork(format: Format, c: Cycle, before: seq<Event>, base: Cycle, items: seq<Item>, n: nat)
    requires RunFrom(format, c, before) == base && base.phase.Exporting? && base.x.run.Some?
    requires base.x.run.value.todo == Some(items) && n <= |items|
    ensures RunFrom(format, c, before + AllWork(n)) ==
            base.(x := base.x.(tree := TreeAfterAll(format, base.x.tree, items[..n]),
                               run := Some(base.x.run.value.(todo := Some(items[n..])))))
  {
    if n == 0 {
      assert before + AllWork(0) == before && items[0..] == items;
    } else {
      QuietWork(format, c, before, base, items, n - 1);
      RunSnoc(format, c, before + AllWork(n - 1), Work(Complete));
      assert before + AllWork(n) == before + AllWork(n - 1) + [Work(Complete)];
      assert Init(items[..n]) == items[..n - 1];
      assert items[n - 1..][0] == items[n - 1] && items[n - 1..][1..] == items[n..];
    }
  }

  lemma QuietEnd(format: Format, c: Cycle, before: seq<Event>, base: Cycle)
    requires RunFrom(format, c, before) == base && base.phase.Exporting? && base.x.run.Some? && base.x.run.value.todo == Some([])
    ensures RunFrom(format, c, before + [FinishExport] + [Reindex(true)] + [StoreMark(true)]) ==
            base.(x := base.x.(cursor := Some(base.x.run.value.startedAt), run := None), index := base.x.tree,
                  mark := Some(base.phase.watermark), phase := Resting)
  {
    RunSnoc(format, c, before, FinishExport);
    RunSnoc(format, c, before + [FinishExport], Reindex(true));
    RunSnoc(format, c, before + [FinishExport] + [Reindex(true)], StoreMark(true));
  }

  /** What such a cycle comes to: the tree exported, the same tree indexed, cursor and mark at its start. */
  lemma QuietCycleRuns(format: Format, c: Cycle)
    requires c.phase.Resting? && c.x.run.None?
    ensures var items := Changes(c.x.db, c.x.cursor);
            var tree := TreeAfterAll(format, c.x.tree, items);
            RunFrom(format, c, QuietCycle(|items|)) ==
              Cycle(c.x.(tree := tree, cursor := Some(c.x.now)), tree, Some(c.x.now), c.x.now, Resting)
  {
    var items := Changes(c.x.db, c.x.cursor);
    var before := [Sample] + [BeginExport] + [ReadStore];
    QuietRead(format, c);
    QuietWork(format, c, before, RunFrom(format, c, before), items, |items|);
    assert items[..|items|] == items && items[|items|..] == [];
    QuietEnd(format, c, before + AllWork(|items|), RunFrom(format, c, before + AllWork(|items|)));
  }

  /**
   * From any resting state of a run: one undisturbed cycle indexes every exportable memory's current version,
   * given-up ones that the cursor has passed apart, and leaves the gauge fresh if no promotion is from the future.
   */
  lemma QuietCycleIndexesAll(format: Format, c: Cycle, events: seq<Event>, m: Memory)
    requires FirstCycle(c) && MarksOnlyFinished(format, c, events) && RunFrom(format, c, events).phase.Resting?
    requires m in RunFrom(format, c, events).x.db && !E.LeftBehind(RunFrom(format, c, events).x, m)
    ensures var end := RunFrom(format, c, events);
            var done := RunFrom(format, end, QuietCycle(|Changes(end.x.db, end.x.cursor)|));
            (Exported(format, done.index, m) || Exempt(format, m)) && done.mark == Some(end.x.now) &&
            (MeasuresFresh(done) <==> forall a :: a in end.x.db ==> a.promotedAt <= end.x.now)
  {
    var end := RunFrom(format, c, events);
    RunKeepsInv(format, c, events);
    QuietCycleRuns(format, end);
    if !Exempt(format, m) {
      E.QuietExportCompletes(format, end.x, m);
    }
  }
}
