/** One incremental export (apps/git-exporter/src/exporter.ts, diff/change-detector.ts, formatter/directory-mapper.ts). */
module GitExporter {
  import opened Prelude

  datatype Lifecycle = Active | Deprecated | Superseded | Archived

  /** restricted: confidential or above, or meant for an audience narrower than the tenant. */
  datatype Memory = Memory(
    id: string, lifecycle: Lifecycle, source: string, category: string, restricted: bool, body: string,
    promotedAt: int, updatedAt: int)

  datatype Path = Path(dir: string, id: string)

  type Tree = map<Path, string>

  /** The formatter; None where it throws. */
  type Format = Memory -> Option<string>

  datatype Item =
    | WriteItem(memory: Memory, path: Path)
    | ArchiveItem(memory: Memory, from: Path, to: Path)

  // ---------- placing ----------

  /** None where the mapper refuses an unknown category. */
  function CategoryDirectory(category: string): (r: Option<string>)
    ensures r != Some("archive")
  {
    if category == "decision" then Some("decisions")
    else if category in ["pattern", "convention", "architecture"] then Some("curated")
    else if category in ["troubleshooting", "reference", "onboarding"] then Some("guides")
    else None
  }

  function ActiveDirectory(m: Memory): (r: Option<string>)
    ensures r != Some("archive")
  {
    if m.source == "bulk_import" then Some("bulk") else CategoryDirectory(m.category)
  }

  /** Where a memory goes: its active directory, or from there to the archive; None is quarantined. */
  function Place(m: Memory): Option<Item> {
    match ActiveDirectory(m)
    case None => None
    case Some(dir) =>
      if m.lifecycle == Active then Some(WriteItem(m, Path(dir, m.id)))
      else Some(ArchiveItem(m, Path(dir, m.id), Path("archive", m.id)))
  }

  // ---------- the changeset ----------

  /** The inclusive cursor filter; a first export takes everything. */
  predicate Eligible(m: Memory, cursor: Option<int>) {
    cursor.None? || m.updatedAt >= cursor.value
  }

  function ToWrite(db: seq<Memory>, cursor: Option<int>): seq<Item> {
    if |db| == 0 then []
    else
      var m := Last(db);
      if Eligible(m, cursor) && Place(m).Some? && Place(m).value.WriteItem?
        then ToWrite(Init(db), cursor) + [Place(m).value] else ToWrite(Init(db), cursor)
  }

  function ToArchive(db: seq<Memory>, cursor: Option<int>): seq<Item> {
    if |db| == 0 then []
    else
      var m := Last(db);
      if Eligible(m, cursor) && Place(m).Some? && Place(m).value.ArchiveItem?
        then ToArchive(Init(db), cursor) + [Place(m).value] else ToArchive(Init(db), cursor)
  }

  function Changes(db: seq<Memory>, cursor: Option<int>): seq<Item> {
    ToWrite(db, cursor) + ToArchive(db, cursor)
  }

  function Unplaced(db: seq<Memory>, cursor: Option<int>): seq<string> {
    if |db| == 0 then []
    else
      var m := Last(db);
      if Eligible(m, cursor) && Place(m).None? then Unplaced(Init(db), cursor) + [m.id] else Unplaced(Init(db), cursor)
  }

  method DetectChanges(db: seq<Memory>, cursor: Option<int>)
    returns (toWrite: seq<Item>, toArchive: seq<Item>, quarantined: seq<string>)
    ensures toWrite == ToWrite(db, cursor) && toArchive == ToArchive(db, cursor) && quarantined == Unplaced(db, cursor)
  {
    toWrite, toArchive, quarantined := [], [], [];
    for i := 0 to |db|
      invariant toWrite == ToWrite(db[..i], cursor)
      invariant toArchive == ToArchive(db[..i], cursor)
      invariant quarantined == Unplaced(db[..i], cursor)
    {
      assert Init(db[..i + 1]) == db[..i];
      var m := db[i];
      if !Eligible(m, cursor) {
        continue;
      }
      var dir := ActiveDirectory(m);
      if dir.None? {
        quarantined := quarantined + [m.id];
      } else if m.lifecycle != Active {
        toArchive := toArchive + [ArchiveItem(m, Path(dir.value, m.id), Path("archive", m.id))];
      } else {
        toWrite := toWrite + [WriteItem(m, Path(dir.value, m.id))];
      }
    }
    assert db[..|db|] == db;
  }

  lemma {:induction false} ToWriteMember(db: seq<Memory>, cursor: Option<int>, item: Item)
    ensures item in ToWrite(db, cursor) <==>
            item.memory in db && Eligible(item.memory, cursor) && Place(item.memory) == Some(item) && item.WriteItem?
  {
    if |db| > 0 {
      ToWriteMember(Init(db), cursor, item);
      assert item.memory in db <==> item.memory in Init(db) || item.memory == Last(db);
    }
  }

  lemma {:induction false} ToArchiveMember(db: seq<Memory>, cursor: Option<int>, item: Item)
    ensures item in ToArchive(db, cursor) <==>
            item.memory in db && Eligible(item.memory, cursor) && Place(item.memory) == Some(item) && item.ArchiveItem?
  {
    if |db| > 0 {
      ToArchiveMember(Init(db), cursor, item);
      assert item.memory in db <==> item.memory in Init(db) || item.memory == Last(db);
    }
  }

  /** The changeset is exactly the eligible memories that have a place. */
  lemma ChangesMember(db: seq<Memory>, cursor: Option<int>, item: Item)
    ensures item in Changes(db, cursor) <==>
            item.memory in db && Eligible(item.memory, cursor) && Place(item.memory) == Some(item)
  {
    ToWriteMember(db, cursor, item);
    ToArchiveMember(db, cursor, item);
  }

  /** Every item stems from its memory's place. */
  ghost predicate Placed(items: seq<Item>) {
    forall item :: item in items ==> Place(item.memory) == Some(item)
  }

  lemma PlacedItems(db: seq<Memory>, cursor: Option<int>)
    ensures Placed(ToWrite(db, cursor)) && forall item :: item in ToWrite(db, cursor) ==> item.WriteItem?
    ensures Placed(ToArchive(db, cursor)) && forall item :: item in ToArchive(db, cursor) ==> item.ArchiveItem?
  {
    forall item | item in ToWrite(db, cursor) || item in ToArchive(db, cursor)
      ensures Place(item.memory) == Some(item)
      ensures item in ToWrite(db, cursor) ==> item.WriteItem?
      ensures item in ToArchive(db, cursor) ==> item.ArchiveItem?
    {
      ToWriteMember(db, cursor, item);
      ToArchiveMember(db, cursor, item);
    }
  }

  // ---------- the tree ----------

  /** Never exported: restricted, without a place, or refused by the formatter. */
  predicate Exempt(format: Format, m: Memory) {
    m.restricted || Place(m).None? || format(m).None?
  }

  predicate Holds(tree: Tree, path: Path, content: string) {
    path in tree && tree[path] == content
  }

  /** The tree holds this version of the memory where it belongs, and no active copy of an archived one. */
  predicate Exported(format: Format, tree: Tree, m: Memory) {
    match (Place(m), format(m))
    case (Some(WriteItem(_, path)), Some(content)) => Holds(tree, path, content)
    case (Some(ArchiveItem(_, from, to)), Some(content)) => from !in tree && Holds(tree, to, content)
    case _ => false
  }

  /** How far the file operations of one item got. */
  datatype Progress = NotStarted | Unlinked | Torn(garbage: string) | Complete

  /** The tree after working on an item that far; an item already exported is left alone. */
  function TreeAfter(format: Format, tree: Tree, item: Item, p: Progress): Tree {
    var m := item.memory;
    if m.restricted || format(m).None? || Exported(format, tree, m) then tree
    else
      var content := if p.Torn? then p.garbage else format(m).value;
      var writes := p.Torn? || p.Complete?;
      match item
      case WriteItem(_, path) => if writes then tree[path := content] else tree
      case ArchiveItem(_, from, to) =>
        if p.NotStarted? then tree
        else if writes then (tree - {from})[to := content]
        else tree - {from}
  }

  function TreeAfterAll(format: Format, tree: Tree, items: seq<Item>): Tree {
    if |items| == 0 then tree else TreeAfter(format, TreeAfterAll(format, tree, Init(items)), Last(items), Complete)
  }

  /** A finished item is exported, unless it never is. */
  lemma FinishedIsExported(format: Format, tree: Tree, item: Item)
    requires Place(item.memory) == Some(item) && !Exempt(format, item.memory)
    ensures Exported(format, TreeAfter(format, tree, item, Complete), item.memory)
  {
  }

  /** Work on one memory touches no file of another. */
  lemma OthersUntouched(format: Format, tree: Tree, item: Item, p: Progress, m: Memory)
    requires Place(item.memory) == Some(item) && m.id != item.memory.id
    ensures Exported(format, TreeAfter(format, tree, item, p), m) == Exported(format, tree, m)
  {
  }

  /** Everything in the changeset that can be exported already is. */
  ghost predicate AllInPlace(format: Format, tree: Tree, items: seq<Item>) {
    forall item :: item in items && !Exempt(format, item.memory) ==> Exported(format, tree, item.memory)
  }

  lemma {:induction false} TreeAfterBoth(format: Format, tree: Tree, xs: seq<Item>, ys: seq<Item>)
    ensures TreeAfterAll(format, tree, xs + ys) == TreeAfterAll(format, TreeAfterAll(format, tree, xs), ys)
    ensures Written(format, tree, xs + ys) == Written(format, tree, xs) + Written(format, TreeAfterAll(format, tree, xs), ys)
  {
    if |ys| == 0 {
      assert xs + ys == xs;
    } else {
      TreeAfterBoth(format, tree, xs, Init(ys));
      assert Init(xs + ys) == xs + Init(ys);
    }
  }

  function Target(item: Item): Path {
    match item
    case WriteItem(_, path) => path
    case ArchiveItem(_, _, to) => to
  }

  datatype Outcome = Skipped | Quarantined | Untouched | Wrote

  function OutcomeOf(format: Format, tree: Tree, item: Item): Outcome {
    var m := item.memory;
    if m.restricted then Skipped
    else if format(m).None? then Quarantined
    else if Exported(format, tree, m) then Untouched
    else Wrote
  }

  /** What working on the items in turn writes. */
  function Written(format: Format, tree: Tree, items: seq<Item>): seq<Path> {
    if |items| == 0 then []
    else
      var item := Last(items);
      var before := Written(format, tree, Init(items));
      if OutcomeOf(format, TreeAfterAll(format, tree, Init(items)), item) == Wrote then before + [Target(item)] else before
  }

  lemma AllInPlaceSnoc(format: Format, tree: Tree, items: seq<Item>)
    requires |items| > 0
    ensures AllInPlace(format, tree, items) <==>
            AllInPlace(format, tree, Init(items)) && (Exempt(format, Last(items).memory) || Exported(format, tree, Last(items).memory))
  {
    assert forall item :: item in items <==> item in Init(items) || item == Last(items);
  }

  /** Nothing written, nothing changed; and a settled changeset writes nothing. */
  lemma {:induction false} NothingWritten(format: Format, tree: Tree, items: seq<Item>)
    requires Placed(items)
    ensures Written(format, tree, items) == [] <==> AllInPlace(format, tree, items)
    ensures Written(format, tree, items) == [] ==> TreeAfterAll(format, tree, items) == tree
  {
    if |items| > 0 {
      AllInPlaceSnoc(format, tree, items);
      NothingWritten(format, tree, Init(items));
      assert Last(items) in items;
    }
  }

  lemma OneItemMore(format: Format, before: Tree, items: seq<Item>, i: nat)
    requires i < |items|
    ensures var tree, written := TreeAfterAll(format, before, items[..i]), Written(format, before, items[..i]);
            TreeAfterAll(format, before, items[..i + 1]) == TreeAfter(format, tree, items[i], Complete) &&
            Written(format, before, items[..i + 1]) ==
              (if OutcomeOf(format, tree, items[i]) == Wrote then written + [Target(items[i])] else written)
  {
    assert Init(items[..i + 1]) == items[..i];
  }

  // ---------- the export ----------

  datatype ExportResult = ExportResult(
    written: seq<Path>, archived: seq<Path>, skipped: seq<string>, quarantined: seq<string>, untouched: nat)

  /** The result with the outcome of one more item. */
  function Recorded(r: ExportResult, item: Item, outcome: Outcome): ExportResult {
    match outcome
    case Skipped => r.(skipped := r.skipped + [item.memory.id])
    case Quarantined => r.(quarantined := r.quarantined + [item.memory.id])
    case Untouched => r.(untouched := r.untouched + 1)
    case Wrote =>
      if item.WriteItem? then r.(written := r.written + [item.path]) else r.(archived := r.archived + [item.to])
  }

  /** Ids of the restricted items. */
  function SkippedIds(items: seq<Item>): seq<string> {
    if |items| == 0 then []
    else SkippedIds(Init(items)) + if Last(items).memory.restricted then [Last(items).memory.id] else []
  }

  /** Ids of the unrestricted items the formatter refuses. */
  function RefusedIds(format: Format, items: seq<Item>): seq<string> {
    if |items| == 0 then []
    else
      var m := Last(items).memory;
      RefusedIds(format, Init(items)) + if !m.restricted && format(m).None? then [m.id] else []
  }

  lemma NoItemsYet(format: Format, tree: Tree, items: seq<Item>)
    ensures TreeAfterAll(format, tree, items[..0]) == tree && Written(format, tree, items[..0]) == []
    ensures SkippedIds(items[..0]) == [] && RefusedIds(format, items[..0]) == []
  {
  }

  lemma IdsSnoc(format: Format, tree: Tree, items: seq<Item>, i: nat)
    requires i < |items|
    ensures SkippedIds(items[..i + 1]) ==
            SkippedIds(items[..i]) + if OutcomeOf(format, tree, items[i]) == Skipped then [items[i].memory.id] else []
    ensures RefusedIds(format, items[..i + 1]) ==
            RefusedIds(format, items[..i]) + if OutcomeOf(format, tree, items[i]) == Quarantined then [items[i].memory.id] else []
  {
    assert Init(items[..i + 1]) == items[..i];
  }

  lemma {:induction false} IdsMember(format: Format, items: seq<Item>, id: string)
    ensures id in SkippedIds(items) <==> exists item :: item in items && item.memory.id == id && item.memory.restricted
    ensures id in RefusedIds(format, items) <==>
            exists item :: item in items && item.memory.id == id && !item.memory.restricted && format(item.memory).None?
  {
    if |items| > 0 {
      IdsMember(format, Init(items), id);
      assert forall item :: item in items <==> item in Init(items) || item == Last(items);
    }
  }

  function Accounted(r: ExportResult): nat {
    |r.written| + |r.archived| + |r.skipped| + |r.quarantined| + r.untouched
  }

  class Exporter {
    const format: Format
    var tree: Tree
    var cursor: Option<int>

    constructor (format: Format)
      ensures this.format == format && tree == map[] && cursor == None
    {
      this.format := format;
      tree := map[];
      cursor := None;
    }

    /** The body of the write loop: content-compared, so a file that is already right is not written. */
    method WriteOne(item: Item) returns (outcome: Outcome)
      requires item.WriteItem? && Place(item.memory) == Some(item)
      modifies this`tree
      ensures outcome == OutcomeOf(format, old(tree), item) && tree == TreeAfter(format, old(tree), item, Complete)
    {
      if item.memory.restricted {
        return Skipped;
      }
      var content := format(item.memory);
      if content.None? {
        return Quarantined;
      }
      if item.path in tree && tree[item.path] == content.value {
        return Untouched;
      }
      tree := tree[item.path := content.value];
      outcome := Wrote;
    }

    /** The body of the archive loop: the active copy goes first, then the archived one is written. */
    method ArchiveOne(item: Item) returns (outcome: Outcome)
      requires item.ArchiveItem? && Place(item.memory) == Some(item)
      modifies this`tree
      ensures outcome == OutcomeOf(format, old(tree), item) && tree == TreeAfter(format, old(tree), item, Complete)
    {
      if item.memory.restricted {
        return Skipped;
      }
      var content := format(item.memory);
      if content.None? {
        return Quarantined;
      }
      if item.from !in tree && item.to in tree && tree[item.to] == content.value {
        return Untouched;
      }
      if item.from in tree {
        tree := tree - {item.from};
      }
      assert tree == old(tree) - {item.from};
      tree := tree[item.to := content.value];
      outcome := Wrote;
    }

    method WriteItems(items: seq<Item>, r0: ExportResult) returns (r: ExportResult)
      requires Placed(items) && forall item :: item in items ==> item.WriteItem?
      modifies this`tree
      ensures tree == TreeAfterAll(format, old(tree), items)
      ensures r.written == r0.written + Written(format, old(tree), items) && r.archived == r0.archived
      ensures r.skipped == r0.skipped + SkippedIds(items) && r.quarantined == r0.quarantined + RefusedIds(format, items)
      ensures Accounted(r) == Accounted(r0) + |items|
    {
      hide TreeAfterAll, Written, SkippedIds, RefusedIds;
      NoItemsYet(format, tree, items);
      r := r0;
      for i := 0 to |items|
        invariant tree == TreeAfterAll(format, old(tree), items[..i])
        invariant r.written == r0.written + Written(format, old(tree), items[..i]) && r.archived == r0.archived
        invariant r.skipped == r0.skipped + SkippedIds(items[..i])
        invariant r.quarantined == r0.quarantined + RefusedIds(format, items[..i])
        invariant Accounted(r) == Accounted(r0) + i
      {
        assert items[i] in items;
        OneItemMore(format, old(tree), items, i);
        IdsSnoc(format, tree, items, i);
        var outcome := WriteOne(items[i]);
        r := Recorded(r, items[i], outcome);
      }
      assert items[..|items|] == items;
    }

    method ArchiveItems(items: seq<Item>, r0: ExportResult) returns (r: ExportResult)
      requires Placed(items) && forall item :: item in items ==> item.ArchiveItem?
      modifies this`tree
      ensures tree == TreeAfterAll(format, old(tree), items)
      ensures r.archived == r0.archived + Written(format, old(tree), items) && r.written == r0.written
      ensures r.skipped == r0.skipped + SkippedIds(items) && r.quarantined == r0.quarantined + RefusedIds(format, items)
      ensures Accounted(r) == Accounted(r0) + |items|
    {
      hide TreeAfterAll, Written, SkippedIds, RefusedIds;
      NoItemsYet(format, tree, items);
      r := r0;
      for i := 0 to |items|
        invariant tree == TreeAfterAll(format, old(tree), items[..i])
        invariant r.archived == r0.archived + Written(format, old(tree), items[..i]) && r.written == r0.written
        invariant r.skipped == r0.skipped + SkippedIds(items[..i])
        invariant r.quarantined == r0.quarantined + RefusedIds(format, items[..i])
        invariant Accounted(r) == Accounted(r0) + i
      {
        assert items[i] in items;
        OneItemMore(format, old(tree), items, i);
        IdsSnoc(format, tree, items, i);
        var outcome := ArchiveOne(items[i]);
        r := Recorded(r, items[i], outcome);
      }
      assert items[..|items|] == items;
    }

    method ApplyChanges(toWrite: seq<Item>, toArchive: seq<Item>, quarantined: seq<string>) returns (r: ExportResult)
      requires Placed(toWrite) && forall item :: item in toWrite ==> item.WriteItem?
      requires Placed(toArchive) && forall item :: item in toArchive ==> item.ArchiveItem?
      modifies this`tree
      ensures tree == TreeAfterAll(format, old(tree), toWrite + toArchive)
      ensures r.written + r.archived == Written(format, old(tree), toWrite + toArchive)
      ensures r.skipped == SkippedIds(toWrite) + SkippedIds(toArchive)
      ensures r.quarantined == quarantined + RefusedIds(format, toWrite) + RefusedIds(format, toArchive)
      ensures Accounted(r) == |toWrite| + |toArchive| + |quarantined|
    {
      hide TreeAfterAll, Written, Placed;
      TreeAfterBoth(format, tree, toWrite, toArchive);
      r := ExportResult([], [], [], quarantined, 0);
      r := WriteItems(toWrite, r);
      r := ArchiveItems(toArchive, r);
    }

    /**
     * An export no one disturbs: the tree after all changes, the cursor at the start time. The result
     * lists what was written, and accounts for every item.
     */
    method RunExport(db: seq<Memory>, startedAt: int) returns (r: ExportResult)
      modifies this
      ensures tree == TreeAfterAll(format, old(tree), Changes(db, old(cursor))) && cursor == Some(startedAt)
      ensures Accounted(r) == |Changes(db, old(cursor))| + |Unplaced(db, old(cursor))|
      ensures r.written + r.archived == Written(format, old(tree), Changes(db, old(cursor)))
      ensures r.skipped == SkippedIds(ToWrite(db, old(cursor))) + SkippedIds(ToArchive(db, old(cursor)))
      ensures r.quarantined == Unplaced(db, old(cursor)) + RefusedIds(format, ToWrite(db, old(cursor))) +
                               RefusedIds(format, ToArchive(db, old(cursor)))
    {
      var toWrite, toArchive, quarantined := DetectChanges(db, cursor);
      PlacedItems(db, cursor);
      r := ApplyChanges(toWrite, toArchive, quarantined);
      cursor := Some(startedAt);
    }
  }
}
