/**
 * Incremental exports over whole runs: memories change while an export is between any two of its
 * steps, file operations fail or stop half way, and the exporter may die anywhere before it stores
 * its cursor.
 */
module ExportRuns {
  import opened Prelude
  import opened GitExporter

  /** An export in progress: its start time, and what it still has to do once it has read the store. */
  datatype Export = Export(startedAt: int, todo: Option<seq<Item>>)

  /** setAside records the versions an export gave up on after a failed file operation. */
  datatype World = World(now: int, db: seq<Memory>, tree: Tree, cursor: Option<int>, setAside: set<Memory>, run: Option<Export>)

  datatype Step =
    | Put(m: Memory)
    | Delete(id: string)
    | Tick(ms: nat)
    | Start
    | ReadStore
    | Work(p: Progress)
    | SetCursor
    | Die(p: Progress)

  function Without(db: seq<Memory>, id: string): seq<Memory> {
    if |db| == 0 then []
    else if Last(db).id == id then Without(Init(db), id)
    else Without(Init(db), id) + [Last(db)]
  }

  /** Timestamps do not go back: a put takes effect only with a stamp at or after the clock. */
  function Next(format: Format, w: World, step: Step): World {
    match step
    case Put(m) => if m.updatedAt >= w.now then w.(db := Without(w.db, m.id) + [m]) else w
    case Delete(id) => w.(db := Without(w.db, id))
    case Tick(ms) => w.(now := w.now + ms)
    case Start => if w.run.None? then w.(run := Some(Export(w.now, None))) else w
    case ReadStore =>
      if w.run.Some? && w.run.value.todo.None?
        then w.(run := Some(w.run.value.(todo := Some(Changes(w.db, w.cursor))))) else w
    case Work(p) => if Busy(w) then Worked(format, w, p) else w
    case SetCursor =>
      if w.run.Some? && w.run.value.todo == Some([]) then w.(cursor := Some(w.run.value.startedAt), run := None) else w
    case Die(p) =>
      if Busy(w) then w.(tree := TreeAfter(format, w.tree, w.run.value.todo.value[0], p), run := None)
      else w.(run := None)
  }

  predicate Busy(w: World) {
    w.run.Some? && w.run.value.todo.Some? && |w.run.value.todo.value| > 0
  }

  /** The next item done, or given up on with its files left as far as the work got. */
  function Worked(format: Format, w: World, p: Progress): World
    requires Busy(w)
  {
    var items := w.run.value.todo.value;
    w.(tree := TreeAfter(format, w.tree, items[0], p),
       setAside := if p == Complete then w.setAside else w.setAside + {items[0].memory},
       run := Some(w.run.value.(todo := Some(items[1..]))))
  }

  function RunFrom(format: Format, w: World, steps: seq<Step>): World {
    if |steps| == 0 then w else Next(format, RunFrom(format, w, Init(steps)), Last(steps))
  }

  ghost predicate UniqueMemoryIds(db: seq<Memory>) {
    forall a, b :: a in db && b in db && a.id == b.id ==> a == b
  }

  /** Never exported before; any store and any tree. */
  ghost predicate FirstTime(w: World) {
    UniqueMemoryIds(w.db) && w.cursor.None? && w.setAside == {} && w.run.None?
  }

  // ---------- the invariant ----------

  /** The tree has this version, or never will, or an export gave it up. */
  ghost predicate Settled(format: Format, w: World, m: Memory) {
    Exported(format, w.tree, m) || Exempt(format, m) || m in w.setAside
  }

  /** No lost update: what is not settled is still ahead of the stored cursor. */
  ghost predicate NothingLost(format: Format, w: World) {
    forall m :: m in w.db ==> Settled(format, w, m) || Eligible(m, w.cursor)
  }

  predicate Listed(items: seq<Item>, m: Memory) {
    exists k :: 0 <= k < |items| && items[k].memory == m
  }

  /** A captured item is the memory's current version, or that has changed since the export started. */
  ghost predicate ItemOk(w: World, startedAt: int, item: Item) {
    Place(item.memory) == Some(item) && Eligible(item.memory, w.cursor) &&
    forall m :: m in w.db && m.id == item.memory.id ==> m == item.memory || m.updatedAt >= startedAt
  }

  /** What an export still has to do covers everything that would otherwise fall behind its start. */
  ghost predicate ExportOk(format: Format, w: World) {
    w.run.Some? ==>
      var e := w.run.value;
      e.startedAt <= w.now && (w.cursor.Some? ==> w.cursor.value <= e.startedAt) &&
      (e.todo.Some? ==>
        (forall item :: item in e.todo.value ==> ItemOk(w, e.startedAt, item)) &&
        (forall m :: m in w.db ==> Settled(format, w, m) || m.updatedAt >= e.startedAt || Listed(e.todo.value, m)))
  }

  ghost predicate Inv(format: Format, w: World) {
    UniqueMemoryIds(w.db) && (w.cursor.Some? ==> w.cursor.value <= w.now) && NothingLost(format, w) && ExportOk(format, w)
  }

  lemma {:induction false} WithoutMember(db: seq<Memory>, id: string, m: Memory)
    ensures m in Without(db, id) <==> m in db && m.id != id
  {
    if |db| > 0 {
      WithoutMember(Init(db), id, m);
      assert m in db <==> m in Init(db) || m == Last(db);
    }
  }

  /** The store only loses memories, or gains one stamped now or later. */
  lemma StoreChangeKeepsInv(format: Format, w: World, w': World)
    requires Inv(format, w) && UniqueMemoryIds(w'.db) && w' == w.(db := w'.db)
    requires forall m :: m in w'.db ==> m in w.db || m.updatedAt >= w.now
    ensures Inv(format, w')
  {
    if w.run.Some? && w.run.value.todo.Some? {
      forall item | item in w.run.value.todo.value
        ensures ItemOk(w', w.run.value.startedAt, item)
      {
        assert ItemOk(w, w.run.value.startedAt, item);
      }
    }
  }

  lemma PutKeepsInv(format: Format, w: World, m: Memory)
    requires Inv(format, w)
    ensures Inv(format, Next(format, w, Put(m)))
  {
    if m.updatedAt >= w.now {
      var db := Without(w.db, m.id) + [m];
      forall a | a in db
        ensures a == m || (a in w.db && a.id != m.id)
      {
        WithoutMember(w.db, m.id, a);
      }
      StoreChangeKeepsInv(format, w, w.(db := db));
    }
  }

  lemma DeleteKeepsInv(format: Format, w: World, id: string)
    requires Inv(format, w)
    ensures Inv(format, Next(format, w, Delete(id)))
  {
    var db := Without(w.db, id);
    forall a | a in db
      ensures a in w.db
    {
      WithoutMember(w.db, id, a);
    }
    StoreChangeKeepsInv(format, w, w.(db := db));
  }

  /** Reading the store under the inclusive cursor captures everything that is not settled. */
  lemma ReadKeepsInv(format: Format, w: World)
    requires Inv(format, w)
    ensures Inv(format, Next(format, w, ReadStore))
  {
    if w.run.Some? && w.run.value.todo.None? {
      var items := Changes(w.db, w.cursor);
      var w' := Next(format, w, ReadStore);
      forall item | item in items
        ensures ItemOk(w', w.run.value.startedAt, item)
      {
        ChangesMember(w.db, w.cursor, item);
      }
      forall m | m in w.db && !Settled(format, w, m)
        ensures Listed(items, m)
      {
        Captured(format, w, m);
      }
    }
  }

  lemma Captured(format: Format, w: World, m: Memory)
    requires m in w.db && !Exempt(format, m) && Eligible(m, w.cursor)
    ensures Listed(Changes(w.db, w.cursor), m)
  {
    var item := Place(m).value;
    ChangesMember(w.db, w.cursor, item);
    var k :| 0 <= k < |Changes(w.db, w.cursor)| && Changes(w.db, w.cursor)[k] == item;
  }

  /** File operations on an item disturb the settled state of no other memory. */
  lemma SettledElsewhere(format: Format, w: World, w': World, item: Item, p: Progress, m: Memory)
    requires Place(item.memory) == Some(item) && m.id != item.memory.id && Settled(format, w, m)
    requires w'.tree == TreeAfter(format, w.tree, item, p) && w.setAside <= w'.setAside
    ensures Settled(format, w', m)
  {
    OthersUntouched(format, w.tree, item, p, m);
  }

  /** Whatever happens to the item's files, its own memory is still ahead of the stored cursor. */
  lemma WorkLosesNothing(format: Format, w: World, w': World, p: Progress)
    requires Inv(format, w) && Busy(w) && w'.db == w.db && w'.cursor == w.cursor && w.setAside <= w'.setAside
    requires w'.tree == TreeAfter(format, w.tree, w.run.value.todo.value[0], p)
    ensures NothingLost(format, w')
  {
    var item := w.run.value.todo.value[0];
    assert ItemOk(w, w.run.value.startedAt, item);
    forall m | m in w.db
      ensures Settled(format, w', m) || Eligible(m, w'.cursor)
    {
      if m.id != item.memory.id && Settled(format, w, m) {
        SettledElsewhere(format, w, w', item, p, m);
      }
    }
  }

  lemma WorkedItemSettled(format: Format, w: World, p: Progress)
    requires Inv(format, w) && Busy(w)
    ensures Settled(format, Worked(format, w, p), w.run.value.todo.value[0].memory)
  {
    var item := w.run.value.todo.value[0];
    assert ItemOk(w, w.run.value.startedAt, item);
    if p == Complete && !Exempt(format, item.memory) {
      FinishedIsExported(format, w.tree, item);
    }
  }

  lemma ListedTail(items: seq<Item>, m: Memory)
    requires |items| > 0 && Listed(items, m) && m != items[0].memory
    ensures Listed(items[1..], m)
  {
    var k :| 0 <= k < |items| && items[k].memory == m;
    assert items[1..][k - 1] == items[k];
  }

  lemma WorkKeepsInv(format: Format, w: World, p: Progress)
    requires Inv(format, w) && Busy(w)
    ensures Inv(format, Worked(format, w, p))
  {
    var w' := Worked(format, w, p);
    var e := w.run.value;
    var item := e.todo.value[0];
    WorkLosesNothing(format, w, w', p);
    WorkedItemSettled(format, w, p);
    assert ItemOk(w, e.startedAt, item);
    forall other | other in e.todo.value[1..]
      ensures ItemOk(w', e.startedAt, other)
    {
      assert ItemOk(w, e.startedAt, other);
    }
    forall m | m in w.db
      ensures Settled(format, w', m) || m.updatedAt >= e.startedAt || Listed(e.todo.value[1..], m)
    {
      if m.id != item.memory.id && Settled(format, w, m) {
        SettledElsewhere(format, w, w', item, p, m);
      } else if m != item.memory && Listed(e.todo.value, m) {
        ListedTail(e.todo.value, m);
      }
    }
  }

  lemma DieKeepsInv(format: Format, w: World, p: Progress)
    requires Inv(format, w)
    ensures Inv(format, Next(format, w, Die(p)))
  {
    if Busy(w) {
      WorkLosesNothing(format, w, Next(format, w, Die(p)), p);
    }
  }

  lemma StepKeepsInv(format: Format, w: World, step: Step)
    requires Inv(format, w)
    ensures Inv(format, Next(format, w, step))
  {
    match step
    case Put(m) => PutKeepsInv(format, w, m);
    case Delete(id) => DeleteKeepsInv(format, w, id);
    case ReadStore => ReadKeepsInv(format, w);
    case Work(p) => if Busy(w) { WorkKeepsInv(format, w, p); }
    case Die(p) => DieKeepsInv(format, w, p);
    case Tick(_) => BookkeepingKeepsInv(format, w, step);
    case Start => BookkeepingKeepsInv(format, w, step);
    case SetCursor => BookkeepingKeepsInv(format, w, step);
  }

  lemma BookkeepingKeepsInv(format: Format, w: World, step: Step)
    requires Inv(format, w) && (step.Tick? || step.Start? || step.SetCursor?)
    ensures Inv(format, Next(format, w, step))
  {
    var w' := Next(format, w, step);
    forall m | m in w.db
      ensures Settled(format, w', m) == Settled(format, w, m)
    {
    }
    if w'.run.Some? && w'.run.value.todo.Some? {
      forall item | item in w'.run.value.todo.value
        ensures ItemOk(w', w'.run.value.startedAt, item)
      {
        assert ItemOk(w, w.run.value.startedAt, item);
      }
    }
  }

  lemma {:induction false} RunKeepsInv(format: Format, w: World, steps: seq<Step>)
    requires FirstTime(w)
    ensures Inv(format, RunFrom(format, w, steps))
  {
    if |steps| > 0 {
      RunKeepsInv(format, w, Init(steps));
      StepKeepsInv(format, RunFrom(format, w, Init(steps)), Last(steps));
    }
  }

  /**
   * No lost update: in every reachable state, crashes included, a memory whose current version the
   * tree does not have, and that is neither exempt nor given up, is at or after the stored cursor.
   */
  lemma NoLostUpdate(format: Format, w: World, steps: seq<Step>, m: Memory)
    requires FirstTime(w) && m in RunFrom(format, w, steps).db
    ensures var end := RunFrom(format, w, steps);
            Exported(format, end.tree, m) || Exempt(format, m) || m in end.setAside || Eligible(m, end.cursor)
  {
    RunKeepsInv(format, w, steps);
  }

  // ---------- an export nobody disturbs ----------

  function AllWork(n: nat): seq<Step> {
    if n == 0 then [] else AllWork(n - 1) + [Work(Complete)]
  }

  function QuietExport(n: nat): seq<Step> {
    [Start] + [ReadStore] + AllWork(n) + [SetCursor]
  }

  lemma {:induction false} QuietWork(format: Format, w: World, before: seq<Step>, base: World, items: seq<Item>, n: nat)
    requires RunFrom(format, w, before) == base && base.run.Some? && base.run.value.todo == Some(items) && n <= |items|
    ensures RunFrom(format, w, before + AllWork(n)) ==
            base.(tree := TreeAfterAll(format, base.tree, items[..n]), run := Some(base.run.value.(todo := Some(items[n..]))))
  {
    if n == 0 {
      assert before + AllWork(0) == before && items[0..] == items;
    } else {
      QuietWork(format, w, before, base, items, n - 1);
      assert Init(before + AllWork(n)) == before + AllWork(n - 1);
      assert Init(items[..n]) == items[..n - 1];
      assert items[n - 1..][0] == items[n - 1] && items[n - 1..][1..] == items[n..];
    }
  }

  /** The steps of an undisturbed export, and what they come to. */
  lemma QuietExportRuns(format: Format, w: World)
    requires w.run.None?
    ensures var items := Changes(w.db, w.cursor);
            RunFrom(format, w, QuietExport(|items|)) == w.(tree := TreeAfterAll(format, w.tree, items), cursor := Some(w.now))
  {
    var items := Changes(w.db, w.cursor);
    var before := [Start] + [ReadStore];
    var base := w.(run := Some(Export(w.now, Some(items))));
    assert Init(before) == [Start] && Init([Start]) == [];
    assert RunFrom(format, w, [Start]) == w.(run := Some(Export(w.now, None)));
    assert RunFrom(format, w, before) == base;
    QuietWork(format, w, before, base, items, |items|);
    assert items[..|items|] == items;
    assert Init(QuietExport(|items|)) == before + AllWork(|items|);
  }

  lemma {:induction false} AllWorkedExported(format: Format, tree: Tree, items: seq<Item>, m: Memory)
    requires Placed(items) && UniqueItems(items) && Listed(items, m) && !Exempt(format, m)
    ensures Exported(format, TreeAfterAll(format, tree, items), m)
  {
    var before, item := Init(items), Last(items);
    var mid := TreeAfterAll(format, tree, before);
    assert item in items;
    if item.memory == m {
      FinishedIsExported(format, mid, item);
    } else {
      var k :| 0 <= k < |items| && items[k].memory == m;
      assert before[k] == items[k] && items[k] in items;
      AllWorkedExported(format, tree, before, m);
      OthersUntouched(format, mid, item, Complete, m);
    }
  }

  ghost predicate UniqueItems(items: seq<Item>) {
    forall a, b :: a in items && b in items && a.memory.id == b.memory.id ==> a.memory == b.memory
  }

  lemma {:induction false} UnlistedUntouched(format: Format, tree: Tree, items: seq<Item>, m: Memory)
    requires Placed(items) && forall item :: item in items ==> item.memory.id != m.id
    ensures Exported(format, TreeAfterAll(format, tree, items), m) == Exported(format, tree, m)
  {
    if |items| > 0 {
      assert Last(items) in items;
      UnlistedUntouched(format, tree, Init(items), m);
      OthersUntouched(format, TreeAfterAll(format, tree, Init(items)), Last(items), Complete, m);
    }
  }

  lemma ChangesShape(db: seq<Memory>, cursor: Option<int>)
    requires UniqueMemoryIds(db)
    ensures Placed(Changes(db, cursor)) && UniqueItems(Changes(db, cursor))
    ensures forall item :: item in Changes(db, cursor) ==> item.memory in db && Eligible(item.memory, cursor)
  {
    forall item | item in Changes(db, cursor)
      ensures Place(item.memory) == Some(item) && item.memory in db && Eligible(item.memory, cursor)
    {
      ChangesMember(db, cursor, item);
    }
  }

  /** After an undisturbed run: everything exportable is in the tree, unless given up and not touched since. */
  lemma QuietExportCompletes(format: Format, w: World, m: Memory)
    requires Inv(format, w) && m in w.db && !Exempt(format, m) && (m in w.setAside ==> Eligible(m, w.cursor))
    ensures Exported(format, TreeAfterAll(format, w.tree, Changes(w.db, w.cursor)), m)
  {
    var items := Changes(w.db, w.cursor);
    ChangesShape(w.db, w.cursor);
    if Eligible(m, w.cursor) {
      Captured(format, w, m);
      AllWorkedExported(format, w.tree, items, m);
    } else {
      UnlistedUntouched(format, w.tree, items, m);
    }
  }

  /** The versions an export gave up on and whose stamp the cursor has passed: only these stay out. */
  ghost predicate LeftBehind(w: World, m: Memory) {
    m in w.setAside && !Eligible(m, w.cursor)
  }

  /** From any reachable state: one undisturbed export brings the tree up to date. */
  lemma ExportBringsUpToDate(format: Format, w: World, steps: seq<Step>, m: Memory)
    requires FirstTime(w)
    requires var end := RunFrom(format, w, steps); end.run.None? && m in end.db && !LeftBehind(end, m)
    ensures var end := RunFrom(format, w, steps);
            var done := RunFrom(format, end, QuietExport(|Changes(end.db, end.cursor)|));
            Exported(format, done.tree, m) || Exempt(format, m)
  {
    var end := RunFrom(format, w, steps);
    RunKeepsInv(format, w, steps);
    QuietExportRuns(format, end);
    if !Exempt(format, m) {
      QuietExportCompletes(format, end, m);
    }
  }

  lemma SecondPassWritesNothing(format: Format, w: World)
    requires Inv(format, w)
    ensures var tree := TreeAfterAll(format, w.tree, Changes(w.db, w.cursor));
            Written(format, tree, Changes(w.db, Some(w.now))) == [] &&
            TreeAfterAll(format, tree, Changes(w.db, Some(w.now))) == tree
  {
    var tree := TreeAfterAll(format, w.tree, Changes(w.db, w.cursor));
    var again := Changes(w.db, Some(w.now));
    ChangesShape(w.db, Some(w.now));
    forall item | item in again && !Exempt(format, item.memory)
      ensures Exported(format, tree, item.memory)
    {
      QuietExportCompletes(format, w, item.memory);
    }
    NothingWritten(format, tree, again);
  }

  /** From any reachable state: a second undisturbed export writes nothing. */
  lemma RepeatWritesNothing(format: Format, w: World, steps: seq<Step>)
    requires FirstTime(w) && RunFrom(format, w, steps).run.None?
    ensures var end := RunFrom(format, w, steps);
            var once := RunFrom(format, end, QuietExport(|Changes(end.db, end.cursor)|));
            var twice := RunFrom(format, once, QuietExport(|Changes(once.db, once.cursor)|));
            Written(format, once.tree, Changes(once.db, once.cursor)) == [] && twice.tree == once.tree
  {
    var end := RunFrom(format, w, steps);
    RunKeepsInv(format, w, steps);
    QuietExportRuns(format, end);
    SecondPassWritesNothing(format, end);
    QuietExportRuns(format, RunFrom(format, end, QuietExport(|Changes(end.db, end.cursor)|)));
  }

  /** What was given up stays out: exporting again does not write it, until the memory is updated. */
  lemma GivenUpStaysOut(format: Format, w: World, m: Memory)
    requires UniqueMemoryIds(w.db) && LeftBehind(w, m) && m in w.db
    ensures Exported(format, TreeAfterAll(format, w.tree, Changes(w.db, w.cursor)), m) == Exported(format, w.tree, m)
  {
    ChangesShape(w.db, w.cursor);
    UnlistedUntouched(format, w.tree, Changes(w.db, w.cursor), m);
  }

  // ---------- a memory given up ----------

  const ONLY := Memory("m", Active, "manual", "decision", false, "text", 3, 3)

  const ITEM := WriteItem(ONLY, Path("decisions", "m"))

  /** A one-memory store before its first export. */
  const FRESH := World(5, [ONLY], map[], None, {}, None)

  /** One export whose only write fails. */
  const FAILING := [Start, ReadStore, Work(NotStarted), SetCursor]

  lemma OnlyChange()
    ensures Changes([ONLY], None) == [ITEM]
  {
    assert Init([ONLY]) == [] && Last([ONLY]) == ONLY;
    assert Place(ONLY) == Some(ITEM);
    assert ToWrite([], None) == [] && ToArchive([], None) == [];
    assert ToWrite([ONLY], None) == [ITEM] && ToArchive([ONLY], None) == [];
  }

  lemma OneMore(format: Format, n: nat, before: World, after: World)
    requires n < |FAILING| && RunFrom(format, FRESH, FAILING[..n]) == before && Next(format, before, FAILING[n]) == after
    ensures RunFrom(format, FRESH, FAILING[..n + 1]) == after
  {
    assert Init(FAILING[..n + 1]) == FAILING[..n];
  }

  lemma FailingRuns(format: Format)
    requires format(ONLY).Some?
    ensures RunFrom(format, FRESH, FAILING) == World(5, [ONLY], map[], Some(5), {ONLY}, None)
  {
    OnlyChange();
    OneMore(format, 0, FRESH, FRESH.(run := Some(Export(5, None))));
    OneMore(format, 1, FRESH.(run := Some(Export(5, None))), FRESH.(run := Some(Export(5, Some([ITEM])))));
    OneMore(format, 2, FRESH.(run := Some(Export(5, Some([ITEM])))),
            FRESH.(setAside := {ONLY}, run := Some(Export(5, Some([])))));
    OneMore(format, 3, FRESH.(setAside := {ONLY}, run := Some(Export(5, Some([])))),
            World(5, [ONLY], map[], Some(5), {ONLY}, None));
    assert FAILING[..4] == FAILING;
  }

  /** Such a state is reached: an exportable memory that no later export writes while it stays as it is. */
  lemma GivingUpHappens(format: Format)
    requires format(ONLY).Some?
    ensures var end := RunFrom(format, FRESH, FAILING);
            FirstTime(FRESH) && ONLY in end.db && LeftBehind(end, ONLY) && !Exempt(format, ONLY) &&
            !Exported(format, TreeAfterAll(format, end.tree, Changes(end.db, end.cursor)), ONLY)
  {
    FailingRuns(format);
    OnlyChange();
    ChangesMember([ONLY], None, ITEM);
    GivenUpStaysOut(format, RunFrom(format, FRESH, FAILING), ONLY);
  }
}
