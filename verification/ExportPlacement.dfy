/**
 * Where an export leaves each file (apps/git-exporter/src/formatter/directory-mapper.ts,
 * diff/change-detector.ts, exporter.ts), path by path, with the directories named.
 */
module ExportPlacement {
  import opened Prelude
  import opened GitExporter
  import opened ExportRuns

  // ---------- the directories ----------

  /** The directory of an active memory: bulk imports apart, then by category. */
  predicate BelongsIn(m: Memory, dir: string) {
    (dir == "bulk" && m.source == "bulk_import") ||
    (m.source != "bulk_import" &&
     ((dir == "decisions" && m.category == "decision") ||
      (dir == "curated" && m.category in {"pattern", "convention", "architecture"}) ||
      (dir == "guides" && m.category in {"troubleshooting", "reference", "onboarding"})))
  }

  /** A directory is named for it. */
  predicate HasDirectory(m: Memory) {
    m.source == "bulk_import" ||
    m.category in {"decision", "pattern", "convention", "architecture", "troubleshooting", "reference", "onboarding"}
  }

  lemma DirectoryIs(m: Memory, dir: string)
    ensures ActiveDirectory(m) == Some(dir) <==> BelongsIn(m, dir)
    ensures ActiveDirectory(m).Some? <==> HasDirectory(m)
  {
  }

  /** Not restricted, a directory named for it, accepted by the formatter. */
  predicate Exportable(format: Format, m: Memory) {
    !m.restricted && HasDirectory(m) && format(m).Some?
  }

  lemma ExportableIs(format: Format, m: Memory)
    ensures Exportable(format, m) <==> !Exempt(format, m)
  {
    DirectoryIs(m, "");
  }

  /** What a memory's lifecycle means for the tree. */
  lemma ExportedMeans(format: Format, tree: Tree, m: Memory, dir: string)
    requires Exportable(format, m) && BelongsIn(m, dir)
    ensures Exported(format, tree, m) <==>
            if m.lifecycle == Active then Holds(tree, Path(dir, m.id), format(m).value)
            else Holds(tree, Path("archive", m.id), format(m).value) && Path(dir, m.id) !in tree
  {
    DirectoryIs(m, dir);
  }

  // ---------- one path ----------

  function FileAt(tree: Tree, path: Path): Option<string> {
    if path in tree then Some(tree[path]) else None
  }

  /** What is to be at a path, given what was there: content where the memory goes, nothing where it left. */
  function Wanted(format: Format, m: Memory, path: Path, was: Option<string>): Option<string> {
    if path.id != m.id || !Exportable(format, m) then was
    else if m.lifecycle == Active then (if BelongsIn(m, path.dir) then format(m) else was)
    else if path.dir == "archive" then format(m)
    else if BelongsIn(m, path.dir) then None
    else was
  }

  lemma ItemPlaces(format: Format, tree: Tree, item: Item, path: Path)
    requires Place(item.memory) == Some(item)
    ensures FileAt(TreeAfter(format, tree, item, Complete), path) == Wanted(format, item.memory, path, FileAt(tree, path))
  {
    DirectoryIs(item.memory, path.dir);
    ExportableIs(format, item.memory);
  }

  lemma {:induction false} ItemsPlace(format: Format, tree: Tree, items: seq<Item>, path: Path, m: Memory)
    requires Placed(items) && forall item :: item in items && item.memory.id == path.id ==> item.memory == m
    ensures FileAt(TreeAfterAll(format, tree, items), path) ==
            if Listed(items, m) then Wanted(format, m, path, FileAt(tree, path)) else FileAt(tree, path)
  {
    if |items| > 0 {
      var before, item := Init(items), Last(items);
      assert item in items && forall i :: i in before ==> i in items;
      ItemsPlace(format, tree, before, path, m);
      ItemPlaces(format, TreeAfterAll(format, tree, before), item, path);
      ListedSnoc(items, m);
    }
  }

  lemma ListedSnoc(items: seq<Item>, m: Memory)
    requires |items| > 0
    ensures Listed(items, m) <==> Listed(Init(items), m) || Last(items).memory == m
  {
    if Listed(items, m) {
      var k :| 0 <= k < |items| && items[k].memory == m;
      if k < |items| - 1 {
        assert Init(items)[k] == items[k];
      }
    }
    if Listed(Init(items), m) {
      var k :| 0 <= k < |Init(items)| && Init(items)[k].memory == m;
      assert items[k] == Init(items)[k];
    }
    if Last(items).memory == m {
      assert items[|items| - 1].memory == m;
    }
  }

  // ---------- the whole tree ----------

  /** Stamped at or after the cursor; without one, everything is due. */
  predicate Due(m: Memory, cursor: Option<int>) {
    cursor == None || m.updatedAt >= cursor.value
  }

  lemma ListedIffDue(db: seq<Memory>, cursor: Option<int>, m: Memory)
    requires m in db
    ensures Listed(Changes(db, cursor), m) <==> Due(m, cursor) && HasDirectory(m)
  {
    var items := Changes(db, cursor);
    DirectoryIs(m, "");
    if Listed(items, m) {
      var k :| 0 <= k < |items| && items[k].memory == m;
      ChangesMember(db, cursor, items[k]);
    }
    if Due(m, cursor) && HasDirectory(m) {
      ChangesMember(db, cursor, Place(m).value);
      var k :| 0 <= k < |items| && items[k] == Place(m).value;
    }
  }

  /**
   * The tree after an undisturbed export over unique ids, path by path: a due exportable memory is at the
   * directory its source and category name while Active and at the archive otherwise, where an archived
   * memory's own active copy is gone; every other path, and every other memory's, is as it was.
   */
  lemma TreeAfterExport(format: Format, tree: Tree, db: seq<Memory>, cursor: Option<int>, m: Memory, path: Path)
    requires UniqueMemoryIds(db) && m in db && path.id == m.id
    ensures var was, left := FileAt(tree, path), FileAt(TreeAfterAll(format, tree, Changes(db, cursor)), path);
            left ==
            if !Due(m, cursor) || !Exportable(format, m) then was
            else if m.lifecycle == Active && BelongsIn(m, path.dir) then format(m)
            else if m.lifecycle != Active && path.dir == "archive" then format(m)
            else if m.lifecycle != Active && BelongsIn(m, path.dir) then None
            else was
  {
    ChangesShape(db, cursor);
    ListedIffDue(db, cursor, m);
    ItemsPlace(format, tree, Changes(db, cursor), path, m);
  }

  lemma ListedIsAnItem(items: seq<Item>, m: Memory)
    ensures Listed(items, m) ==> exists item :: item in items && item.memory == m
  {
    if Listed(items, m) {
      var k :| 0 <= k < |items| && items[k].memory == m;
      assert items[k] in items;
    }
  }

  /** Files of ids the store does not have are not touched. */
  lemma UnknownIdsUntouched(format: Format, tree: Tree, db: seq<Memory>, cursor: Option<int>, path: Path)
    requires UniqueMemoryIds(db) && forall m :: m in db ==> m.id != path.id
    ensures FileAt(TreeAfterAll(format, tree, Changes(db, cursor)), path) == FileAt(tree, path)
  {
    var nobody := Memory(path.id, Active, "", "", true, "", 0, 0);
    ChangesShape(db, cursor);
    ListedIsAnItem(Changes(db, cursor), nobody);
    ItemsPlace(format, tree, Changes(db, cursor), path, nobody);
  }

  // ---------- the report ----------

  /** Reported as skipped: exactly the due restricted memories a directory is named for. */
  lemma SkippedAre(format: Format, db: seq<Memory>, cursor: Option<int>, id: string)
    ensures id in SkippedIds(ToWrite(db, cursor)) + SkippedIds(ToArchive(db, cursor)) <==>
            exists m :: m in db && m.id == id && Due(m, cursor) && HasDirectory(m) && m.restricted
  {
    IdsMember(format, ToWrite(db, cursor), id);
    IdsMember(format, ToArchive(db, cursor), id);
    forall item | item in ToWrite(db, cursor) || item in ToArchive(db, cursor)
      ensures item.memory in db && Due(item.memory, cursor) && HasDirectory(item.memory)
    {
      ToWriteMember(db, cursor, item);
      ToArchiveMember(db, cursor, item);
      DirectoryIs(item.memory, "");
    }
    if m :| m in db && m.id == id && Due(m, cursor) && HasDirectory(m) && m.restricted {
      PlacedIsListed(db, cursor, m);
    }
  }

  lemma PlacedIsListed(db: seq<Memory>, cursor: Option<int>, m: Memory)
    requires m in db && Due(m, cursor) && HasDirectory(m)
    ensures exists item :: (item in ToWrite(db, cursor) || item in ToArchive(db, cursor)) && item.memory == m
  {
    DirectoryIs(m, "");
    ToWriteMember(db, cursor, Place(m).value);
    ToArchiveMember(db, cursor, Place(m).value);
  }

  lemma {:induction false} UnplacedMember(db: seq<Memory>, cursor: Option<int>, id: string)
    ensures id in Unplaced(db, cursor) <==> exists m :: m in db && m.id == id && Due(m, cursor) && !HasDirectory(m)
  {
    if |db| > 0 {
      UnplacedMember(Init(db), cursor, id);
      DirectoryIs(Last(db), "");
      assert forall m :: m in db <==> m in Init(db) || m == Last(db);
    }
  }

  /** Reported as quarantined: the due memories with no named directory, and the unrestricted ones the formatter refuses. */
  lemma QuarantinedAre(format: Format, db: seq<Memory>, cursor: Option<int>, id: string)
    ensures id in Unplaced(db, cursor) + RefusedIds(format, ToWrite(db, cursor)) + RefusedIds(format, ToArchive(db, cursor)) <==>
            exists m :: m in db && m.id == id && Due(m, cursor) && (!HasDirectory(m) || (!m.restricted && format(m).None?))
  {
    UnplacedMember(db, cursor, id);
    IdsMember(format, ToWrite(db, cursor), id);
    IdsMember(format, ToArchive(db, cursor), id);
    forall item | item in ToWrite(db, cursor) || item in ToArchive(db, cursor)
      ensures item.memory in db && Due(item.memory, cursor)
    {
      ToWriteMember(db, cursor, item);
      ToArchiveMember(db, cursor, item);
    }
    if m :| m in db && m.id == id && Due(m, cursor) && HasDirectory(m) && !m.restricted && format(m).None? {
      PlacedIsListed(db, cursor, m);
    }
  }

  /** Reported as written or archived: where the exportable items go whose version the tree did not already hold. */
  lemma {:induction false} WrittenAre(format: Format, tree: Tree, items: seq<Item>, path: Path)
    requires Placed(items) && UniqueItems(items)
    ensures path in Written(format, tree, items) <==>
            exists item :: item in items && Target(item) == path && Exportable(format, item.memory) && !Exported(format, tree, item.memory)
  {
    if |items| > 0 {
      var before, item := Init(items), Last(items);
      assert forall i :: i in items <==> i in before || i == item;
      WrittenAre(format, tree, before, path);
      ExportableIs(format, item.memory);
      if item in before {
        var k :| 0 <= k < |before| && before[k] == item;
        if Exportable(format, item.memory) {
          AllWorkedExported(format, tree, before, item.memory);
        }
      } else {
        UnlistedUntouched(format, tree, before, item.memory);
      }
    }
  }

  // ---------- over runs ----------

  const ACTIVE_DIRECTORIES := ["bulk", "decisions", "curated", "guides"]

  /** The tree after one undisturbed export from the state a run came to. */
  function Done(format: Format, w: World, steps: seq<Step>): Tree {
    var end := RunFrom(format, w, steps);
    RunFrom(format, end, QuietExport(|Changes(end.db, end.cursor)|)).tree
  }

  /**
   * From any reachable state: after one undisturbed export, an exportable memory not left behind is at its
   * named directory while Active; otherwise it is in the archive and not at its own active directory.
   */
  lemma ExportPlacesMemory(format: Format, w: World, steps: seq<Step>, m: Memory, dir: string)
    requires FirstTime(w) && RunFrom(format, w, steps).run.None?
    requires m in RunFrom(format, w, steps).db && !LeftBehind(RunFrom(format, w, steps), m)
    requires Exportable(format, m) && BelongsIn(m, dir)
    ensures m.lifecycle == Active ==> FileAt(Done(format, w, steps), Path(dir, m.id)) == format(m)
    ensures m.lifecycle != Active ==> FileAt(Done(format, w, steps), Path("archive", m.id)) == format(m)
    ensures m.lifecycle != Active ==> FileAt(Done(format, w, steps), Path(dir, m.id)) == None
  {
    ExportBringsUpToDate(format, w, steps, m);
    ExportableIs(format, m);
    ExportedMeans(format, Done(format, w, steps), m, dir);
  }

  /**
   * Such a memory that is not Active is at no active path exactly when the tree held no copy of it under
   * another active directory: a copy from before a change of category or source is not looked for.
   */
  lemma ArchivedIsNowhereActiveIff(format: Format, w: World, steps: seq<Step>, m: Memory, own: string)
    requires FirstTime(w) && RunFrom(format, w, steps).run.None?
    requires m in RunFrom(format, w, steps).db && !LeftBehind(RunFrom(format, w, steps), m)
    requires Exportable(format, m) && m.lifecycle != Active && BelongsIn(m, own)
    ensures (forall dir :: dir in ACTIVE_DIRECTORIES ==> Path(dir, m.id) !in Done(format, w, steps)) <==>
            (forall dir :: dir in ACTIVE_DIRECTORIES && dir != own ==> Path(dir, m.id) !in RunFrom(format, w, steps).tree)
  {
    var end, done := RunFrom(format, w, steps), Done(format, w, steps);
    RunKeepsInv(format, w, steps);
    QuietExportRuns(format, end);
    ExportPlacesMemory(format, w, steps, m, own);
    forall dir | dir in ACTIVE_DIRECTORIES && dir != own
      ensures Path(dir, m.id) in done <==> Path(dir, m.id) in end.tree
    {
      TreeAfterExport(format, end.tree, end.db, end.cursor, m, Path(dir, m.id));
    }
    assert own in ACTIVE_DIRECTORIES;
    assert Path(own, m.id) !in done;
  }

  /** A memory recategorized and then deprecated between two exports: its first file stays. */
  lemma RecategorizedCopyStays(format: Format)
    requires format(Memory("m", Deprecated, "manual", "pattern", false, "text", 3, 9)).Some?
    ensures var m := Memory("m", Deprecated, "manual", "pattern", false, "text", 3, 9);
            var tree: Tree := map[Path("decisions", "m") := "text"];
            var after := TreeAfterAll(format, tree, Changes([m], Some(5)));
            FileAt(after, Path("archive", "m")) == format(m) && FileAt(after, Path("decisions", "m")) == Some("text")
  {
    var m := Memory("m", Deprecated, "manual", "pattern", false, "text", 3, 9);
    var tree: Tree := map[Path("decisions", "m") := "text"];
    TreeAfterExport(format, tree, [m], Some(5), m, Path("archive", "m"));
    TreeAfterExport(format, tree, [m], Some(5), m, Path("decisions", "m"));
  }
}
