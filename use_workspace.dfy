// The workspace hook of the React front end (frontend/src/hooks/useWorkspace.ts):
// loading a file into the cache, loading a group and evicting old ones,
// saving a file's dirty changes into its XLIFF document and cached units,
// and reacting to watcher events. Reading, parsing, serialising and writing
// files are inputs; the notification ids the source draws from the clock
// are parameters.

module UseWorkspace {
  import opened Common
  import opened Types
  import FileOperations
  import WorkspaceStore
  import EditorStore
  import UiStore

  /** How the `try` of saveFile ends: xliff.write and WriteFileAtomic both
      succeed, or one of them throws with a message. */
  datatype SaveOutcome = Written | SerializeFailed(message: string) | WriteFailed(message: string)

  // ---------------------------------------------------------------------
  // saveFile: the dirty changes applied to a document and to the units
  // ---------------------------------------------------------------------

  /** The inner `for (const change of changes)` on a parsed unit. */
  function ApplyXliffChanges(u: XliffUnit, cs: seq<UnitChange>): XliffUnit {
    if cs == [] then u
    else XliffWithField(ApplyXliffChanges(u, cs[..|cs| - 1]), cs[|cs| - 1].field, cs[|cs| - 1].newValue)
  }

  /** The same loop on an editor unit, as in the `newUnits` map. */
  function ApplyUnitChanges(u: TranslationUnit, cs: seq<UnitChange>): TranslationUnit {
    if cs == [] then u
    else WithField(ApplyUnitChanges(u, cs[..|cs| - 1]), cs[|cs| - 1].field, cs[|cs| - 1].newValue)
  }

  /** One dirty entry met by one unit: it applies when the unit's current id is the entry's key. */
  function EntryApplied(u: XliffUnit, e: (string, seq<UnitChange>)): XliffUnit {
    if u.id == e.0 then ApplyXliffChanges(u, e.1) else u
  }

  function FileWithEntry(f: XliffFile, e: (string, seq<UnitChange>)): (r: XliffFile)
    ensures r.sourceLanguage == f.sourceLanguage && r.targetLanguage == f.targetLanguage
    ensures |r.units| == |f.units|
    ensures forall i :: 0 <= i < |f.units| ==> r.units[i] == EntryApplied(f.units[i], e)
  {
    f.(units := seq(|f.units|, i requires 0 <= i < |f.units| => EntryApplied(f.units[i], e)))
  }

  /** One pass of the outer loop over the dirty entries. */
  function DocumentWithEntry(doc: XliffDocument, e: (string, seq<UnitChange>)): (r: XliffDocument)
    ensures r.version == doc.version && |r.files| == |doc.files|
    ensures forall i :: 0 <= i < |doc.files| ==> r.files[i] == FileWithEntry(doc.files[i], e)
  {
    doc.(files := seq(|doc.files|, i requires 0 <= i < |doc.files| => FileWithEntry(doc.files[i], e)))
  }

  /** The `updatedData` saveFile writes: the entries applied in map order. */
  function SavedDocument(doc: XliffDocument, dirty: EditorStore.FileChanges): (r: XliffDocument)
    ensures |r.files| == |doc.files|
    ensures forall i :: 0 <= i < |doc.files| ==> |r.files[i].units| == |doc.files[i].units|
  {
    if dirty == [] then doc
    else DocumentWithEntry(SavedDocument(doc, dirty[..|dirty| - 1]), dirty[|dirty| - 1])
  }

  /** What the entries do to one unit: each applies if the unit's id at that
      point is its key, so an id changed by one entry can meet a later one. */
  function SavedXliffUnit(u: XliffUnit, dirty: EditorStore.FileChanges): XliffUnit {
    if dirty == [] then u
    else EntryApplied(SavedXliffUnit(u, dirty[..|dirty| - 1]), dirty[|dirty| - 1])
  }

  /** One element of `newUnits`: a unit without an entry is kept as is. */
  function SavedUnit(u: TranslationUnit, dirty: EditorStore.FileChanges): TranslationUnit {
    match Get(dirty, u.id)
    case None => u
    case Some(cs) => ApplyUnitChanges(u, cs)
  }

  function SavedUnits(units: seq<TranslationUnit>, dirty: EditorStore.FileChanges): (r: seq<TranslationUnit>)
    ensures |r| == |units|
    ensures forall i :: 0 <= i < |units| ==> r[i] == SavedUnit(units[i], dirty)
  {
    seq(|units|, i requires 0 <= i < |units| => SavedUnit(units[i], dirty))
  }

  /** The document keeps its shape, and every unit ends as the entries,
      taken one after another, make it: the loop over entries outside the
      loops over files and units acts unit by unit. */
  lemma {:induction false} SavedDocumentPerUnit(doc: XliffDocument, dirty: EditorStore.FileChanges)
    ensures SavedDocument(doc, dirty).version == doc.version
    ensures |SavedDocument(doc, dirty).files| == |doc.files|
    ensures forall i :: 0 <= i < |doc.files| ==>
      var f := SavedDocument(doc, dirty).files[i];
      && f.sourceLanguage == doc.files[i].sourceLanguage && f.targetLanguage == doc.files[i].targetLanguage
      && |f.units| == |doc.files[i].units|
      && forall j :: 0 <= j < |f.units| ==> f.units[j] == SavedXliffUnit(doc.files[i].units[j], dirty)
  {
    if dirty != [] {
      SavedDocumentPerUnit(doc, dirty[..|dirty| - 1]);
    }
  }

  /** Changes that never touch the id leave it alone. */
  lemma {:induction false} ApplyXliffChangesKeepsId(u: XliffUnit, cs: seq<UnitChange>)
    requires forall c :: c in cs ==> c.field != Id
    ensures ApplyXliffChanges(u, cs).id == u.id
  {
    if cs != [] {
      assert cs[|cs| - 1] in cs;
      ApplyXliffChangesKeepsId(u, cs[..|cs| - 1]);
    }
  }

  /** Without id changes, each unit takes exactly the changes of its own entry. */
  lemma {:induction false} SavedXliffUnitNoRename(u: XliffUnit, dirty: EditorStore.FileChanges)
    requires UniqueKeys(dirty)
    requires forall e, c :: e in dirty && c in e.1 ==> c.field != Id
    ensures SavedXliffUnit(u, dirty) == match Get(dirty, u.id)
      case Some(cs) => ApplyXliffChanges(u, cs)
      case None => u
  {
    if dirty != [] {
      var init := dirty[..|dirty| - 1];
      var e := dirty[|dirty| - 1];
      assert dirty == init + [e];
      UniqueKeysInit(dirty);
      forall d, c | d in init && c in d.1 ensures c.field != Id {
        assert d in dirty;
      }
      SavedXliffUnitNoRename(u, init);
      GetSnoc(init, e, u.id);
      var v := SavedXliffUnit(u, init);
      assert v.id == u.id by {
        if Get(init, u.id).Some? {
          var cs := Get(init, u.id).value;
          assert (u.id, cs) in dirty;
          ApplyXliffChangesKeepsId(u, cs);
        }
      }
      assert SavedXliffUnit(u, dirty) == EntryApplied(v, e);
    }
  }

  /** A unit renamed onto a key that is itself dirty also takes that key's
      changes in the written document, while the cached units apply each
      entry to the unit it was recorded for. */
  lemma RenameMeetsLaterEntry()
    ensures var dirty := [("a", [UnitChange("a", Id, "a", "b", 0)]), ("b", [UnitChange("b", Target, "", "x", 0)])];
      && SavedXliffUnit(XliffUnit("a", "A", None), dirty) == XliffUnit("b", "A", Some("x"))
      && SavedUnits([TranslationUnit("a", "A", "")], dirty) == [TranslationUnit("b", "A", "")]
  {
    var dirty := [("a", [UnitChange("a", Id, "a", "b", 0)]), ("b", [UnitChange("b", Target, "", "x", 0)])];
    var c1 := [UnitChange("a", Id, "a", "b", 0)];
    var c2 := [UnitChange("b", Target, "", "x", 0)];
    assert dirty[..1] == [("a", c1)] && dirty[..1][..0] == [];
    assert c1[..0] == [] && c2[..0] == [];
    assert SavedXliffUnit(XliffUnit("a", "A", None), dirty[..1]) == XliffUnit("b", "A", None);
    assert Get(dirty, "a") == Some(c1);
  }

  /** The document and the units agree: the editor's view of a changed unit
      is the changed editor unit. */
  lemma {:induction false} ApplyChangesCommutesWithView(u: XliffUnit, cs: seq<UnitChange>)
    ensures ToTranslationUnit(ApplyXliffChanges(u, cs)) == ApplyUnitChanges(ToTranslationUnit(u), cs)
  {
    if cs != [] {
      ApplyChangesCommutesWithView(u, cs[..|cs| - 1]);
    }
  }

  /** With at most one change per field, a field ends as its change's newValue
      and is otherwise left alone. */
  lemma {:induction false} ApplyUnitChangesField(u: TranslationUnit, cs: seq<UnitChange>, f: Field)
    requires EditorStore.DistinctFields(cs)
    ensures FieldOf(ApplyUnitChanges(u, cs), f) == match EditorStore.FieldEntry(cs, f)
      case Some(c) => c.newValue
      case None => FieldOf(u, f)
  {
    if cs != [] {
      var init := cs[..|cs| - 1];
      var last := cs[|cs| - 1];
      assert EditorStore.DistinctFields(init);
      ApplyUnitChangesField(u, init, f);
      if last.field == f {
        assert forall i :: 0 <= i < |init| ==> init[i].field != f;
        assert EditorStore.FieldIndex(cs, f) == |init|;
      } else {
        var i := EditorStore.FieldIndex(init, f);
        assert i >= 0 ==> cs[i] == init[i];
        assert EditorStore.FieldIndex(cs, f) == i;
      }
    }
  }

  /** After a save, every field of every cached unit holds the newValue of the
      file's pending change for it, if there was one, and is unchanged otherwise. */
  lemma SaveWritesPendingChanges(dirtyUnits: EditorStore.DirtyUnits, filePath: string, units: seq<TranslationUnit>, i: int, f: Field)
    requires EditorStore.WellFormed(dirtyUnits)
    requires 0 <= i < |units|
    ensures FieldOf(SavedUnits(units, GetOr(dirtyUnits, filePath, []))[i], f) ==
      match EditorStore.FieldChange(dirtyUnits, filePath, units[i].id, f)
      case Some(c) => c.newValue
      case None => FieldOf(units[i], f)
  {
    var fc := GetOr(dirtyUnits, filePath, []);
    assert filePath in Keys(dirtyUnits) ==> EditorStore.FileWellFormed(fc);
    var u := units[i];
    match Get(fc, u.id)
    case None =>
    case Some(cs) =>
      assert (u.id, cs) in fc;
      ApplyUnitChangesField(u, cs, f);
  }

  /** A save with no id change writes, unit by unit, what the cached units get. */
  lemma SavedDocumentMatchesUnits(doc: XliffDocument, dirty: EditorStore.FileChanges, i: int, j: int)
    requires UniqueKeys(dirty)
    requires forall e, c :: e in dirty && c in e.1 ==> c.field != Id
    requires 0 <= i < |doc.files| && 0 <= j < |doc.files[i].units|
    ensures ToTranslationUnit(SavedDocument(doc, dirty).files[i].units[j]) == SavedUnit(ToTranslationUnit(doc.files[i].units[j]), dirty)
  {
    var u := doc.files[i].units[j];
    SavedDocumentPerUnit(doc, dirty);
    SavedXliffUnitNoRename(u, dirty);
    match Get(dirty, u.id)
    case None =>
    case Some(cs) => ApplyChangesCommutesWithView(u, cs);
  }

  // ---------------------------------------------------------------------
  // The hook
  // ---------------------------------------------------------------------

  /** The cache after loadFile: a cached path keeps its entry, a path
      whose content parsed is added with the data loadFile builds, and a
      failed read leaves the cache alone. */
  function CacheAfterLoad(cache: WorkspaceStore.FileCache, filePath: string, content: Result<XliffDocument>): WorkspaceStore.FileCache {
    if filePath in Keys(cache) || content.Err? then cache
    else Put(cache, filePath, FileOperations.LoadFile(filePath, content, false).value)
  }

  /** A load caches the path exactly when it was cached or its content
      parsed, and caches no other path. */
  lemma CacheAfterLoadKeys(cache: WorkspaceStore.FileCache, filePath: string, content: Result<XliffDocument>)
    ensures var r := CacheAfterLoad(cache, filePath, content);
      && (filePath in Keys(r) <==> filePath in Keys(cache) || content.Ok?)
      && (forall q :: q != filePath ==> (q in Keys(r) <==> q in Keys(cache)))
  {
    if filePath !in Keys(cache) && content.Ok? {
      var v := FileOperations.LoadFile(filePath, content, false).value;
      PutKeysMembers(cache, filePath, v);
    }
  }

  /** A load keeps an earlier entry and touches no other path's entry. */
  lemma CacheAfterLoadGet(cache: WorkspaceStore.FileCache, filePath: string, content: Result<XliffDocument>)
    ensures var r := CacheAfterLoad(cache, filePath, content);
      && (filePath in Keys(cache) ==> Get(r, filePath) == Get(cache, filePath))
      && (forall q :: q != filePath ==> Get(r, q) == Get(cache, q))
  {
  }

  /** The cache after loading `paths` one after the other. */
  function CacheAfterLoads(cache: WorkspaceStore.FileCache, paths: seq<string>, read: string -> Result<XliffDocument>): WorkspaceStore.FileCache {
    if paths == [] then cache
    else
      var last := paths[|paths| - 1];
      CacheAfterLoad(CacheAfterLoads(cache, paths[..|paths| - 1], read), last, read(last))
  }

  /** Loading several paths caches each of them exactly when it was cached
      or its content parsed. */
  lemma {:induction false} CacheAfterLoadsKeys(cache: WorkspaceStore.FileCache, paths: seq<string>, read: string -> Result<XliffDocument>, p: string)
    requires p in paths
    ensures p in Keys(CacheAfterLoads(cache, paths, read)) <==> p in Keys(cache) || read(p).Ok?
  {
    var init, last := paths[..|paths| - 1], paths[|paths| - 1];
    var mid := CacheAfterLoads(cache, init, read);
    assert paths == init + [last];
    CacheAfterLoadKeys(mid, last, read(last));
    if p != last {
      CacheAfterLoadsKeys(cache, init, read, p);
    } else if p in init {
      CacheAfterLoadsKeys(cache, init, read, p);
    } else {
      CacheAfterLoadsUntouched(cache, init, read, p);
    }
  }

  /** Loading keeps the cache's paths distinct, as a Map's keys are. */
  lemma {:induction false} CacheAfterLoadsUnique(cache: WorkspaceStore.FileCache, paths: seq<string>, read: string -> Result<XliffDocument>)
    requires UniqueKeys(cache)
    ensures UniqueKeys(CacheAfterLoads(cache, paths, read))
  {
    if paths != [] {
      var init, last := paths[..|paths| - 1], paths[|paths| - 1];
      var mid := CacheAfterLoads(cache, init, read);
      CacheAfterLoadsUnique(cache, init, read);
      if last !in Keys(mid) && read(last).Ok? {
        PutUnique(mid, last, FileOperations.LoadFile(last, read(last), false).value);
      }
    }
  }

  /** Loading several paths changes no entry already cached and no entry of
      another path. */
  lemma {:induction false} CacheAfterLoadsUntouched(cache: WorkspaceStore.FileCache, paths: seq<string>, read: string -> Result<XliffDocument>, p: string)
    requires p !in paths || p in Keys(cache)
    ensures Get(CacheAfterLoads(cache, paths, read), p) == Get(cache, p)
  {
    if paths != [] {
      var init, last := paths[..|paths| - 1], paths[|paths| - 1];
      var mid := CacheAfterLoads(cache, init, read);
      assert paths == init + [last];
      CacheAfterLoadsUntouched(cache, init, read, p);
      CacheAfterLoadGet(mid, last, read(last));
      if p == last {
        assert Get(mid, p) == Get(cache, p);
      }
    }
  }

  class WorkspaceHook {
    /** `recentlySaved`: paths whose watcher events are ignored. */
    var recentlySaved: set<string>

    constructor()
      ensures recentlySaved == {}
    {
      recentlySaved := {};
    }

    /** The forEach over the files of a parsed document: the units pushed and
        the languages left in the two variables. */
    static method ExtractFiles(files: seq<XliffFile>, isSourceOnly: bool, initialTarget: string)
      returns (extracted: seq<TranslationUnit>, sourceLanguage: string, targetLanguage: string)
      ensures extracted == FileOperations.UnitsOf(files, isSourceOnly)
      ensures sourceLanguage == FileOperations.SourceLanguageOf(files)
      ensures targetLanguage == FileOperations.TargetLanguageOf(files, isSourceOnly, initialTarget)
    {
      extracted := [];
      sourceLanguage := "en";
      targetLanguage := initialTarget;
      var i := 0;
      while i < |files|
        invariant 0 <= i <= |files|
        invariant extracted == FileOperations.UnitsOf(files[..i], isSourceOnly)
        invariant sourceLanguage == FileOperations.SourceLanguageOf(files[..i])
        invariant targetLanguage == FileOperations.TargetLanguageOf(files[..i], isSourceOnly, initialTarget)
      {
        var file := files[i];
        assert files[..i + 1][..i] == files[..i];
        if IsSet(file.sourceLanguage) {
          sourceLanguage := file.sourceLanguage.value;
        }
        if !isSourceOnly && IsSet(file.targetLanguage) {
          targetLanguage := file.targetLanguage.value;
        }
        extracted := PushUnits(extracted, file.units, isSourceOnly);
        i := i + 1;
      }
      assert files[..i] == files;
    }

    /** loadFile's `try` for a document that parsed. */
    static method ExtractFileData(filePath: string, doc: XliffDocument) returns (d: FileData)
      ensures Some(d) == FileOperations.LoadFile(filePath, Ok(doc), false)
    {
      var name := FileOperations.ParseT3FileName(FileOperations.FileNameOf(filePath));
      var isSourceOnly := name.language == FileOperations.DefaultLanguage;
      var initialTarget := if isSourceOnly then "" else if name.language != "" then name.language else "de";
      var version := if doc.version.Some? then doc.version.value else "1.2";
      var extracted, sourceLanguage, targetLanguage := ExtractFiles(doc.files, isSourceOnly, initialTarget);
      d := FileData(filePath, doc, extracted, sourceLanguage, targetLanguage, version, name.language, name.baseName, isSourceOnly);
    }

    /** `file.units.forEach(unit => extractedUnits.push(...))` */
    static method PushUnits(extracted: seq<TranslationUnit>, units: seq<XliffUnit>, isSourceOnly: bool) returns (r: seq<TranslationUnit>)
      ensures r == extracted + FileOperations.ExtractUnits(units, isSourceOnly)
    {
      r := extracted;
      var j := 0;
      while j < |units|
        invariant 0 <= j <= |units|
        invariant r == extracted + FileOperations.ExtractUnits(units[..j], isSourceOnly)
      {
        var unit := units[j];
        assert units[..j + 1][..j] == units[..j];
        r := r + [TranslationUnit(unit.id, unit.source,
          if isSourceOnly then "" else if unit.target.Some? then unit.target.value else "")];
        j := j + 1;
      }
      assert units[..j] == units;
    }

    /** loadFile: a cached entry is returned as is; otherwise the read and
        parsed content is extracted and cached, and an exception gives null. */
    method LoadFile(ws: WorkspaceStore.Workspace, filePath: string, content: Result<XliffDocument>) returns (r: Option<FileData>)
      requires ws.Valid()
      modifies ws
      ensures ws.Valid()
      ensures old(ws.GetFileData(filePath)).Some? ==> r == old(ws.GetFileData(filePath)) && ws.fileCache == old(ws.fileCache)
      ensures old(ws.GetFileData(filePath)).None? ==>
        && r == FileOperations.LoadFile(filePath, content, false)
        && ws.fileCache == if r.Some? then Put(old(ws.fileCache), filePath, r.value) else old(ws.fileCache)
      ensures ws.projectRoot == old(ws.projectRoot) && ws.groups == old(ws.groups) && ws.viewMode == old(ws.viewMode)
      ensures ws.activeGroupId == old(ws.activeGroupId) && ws.activeLanguage == old(ws.activeLanguage)
      ensures ws.loadedGroups == old(ws.loadedGroups) && ws.isScanning == old(ws.isScanning) && ws.scanError == old(ws.scanError)
    {
      var cached := ws.GetFileData(filePath);
      if cached.Some? {
        return cached;
      }
      if content.Err? {
        return None;
      }
      var fileData := ExtractFileData(filePath, content.value);
      ws.CacheFileData(filePath, fileData);
      r := Some(fileData);
    }

    /** One load of loadGroup, seen from the cache. */
    method LoadInto(ws: WorkspaceStore.Workspace, filePath: string, content: Result<XliffDocument>)
      requires ws.Valid()
      modifies ws
      ensures ws.Valid()
      ensures ws.fileCache == CacheAfterLoad(old(ws.fileCache), filePath, content)
      ensures ws.projectRoot == old(ws.projectRoot) && ws.groups == old(ws.groups) && ws.viewMode == old(ws.viewMode)
      ensures ws.activeGroupId == old(ws.activeGroupId) && ws.activeLanguage == old(ws.activeLanguage)
      ensures ws.loadedGroups == old(ws.loadedGroups) && ws.isScanning == old(ws.isScanning) && ws.scanError == old(ws.scanError)
    {
      var _ := LoadFile(ws, filePath, content);
    }

    /** The loads of loadGroup, one path after another; `read` gives what
        reading and parsing each path yields. */
    method LoadFiles(ws: WorkspaceStore.Workspace, paths: seq<string>, read: string -> Result<XliffDocument>)
      requires ws.Valid()
      modifies ws
      ensures ws.Valid()
      ensures ws.fileCache == CacheAfterLoads(old(ws.fileCache), paths, read)
      ensures forall p :: p in paths ==> (p in Keys(ws.fileCache) <==> p in Keys(old(ws.fileCache)) || read(p).Ok?)
      ensures forall p :: p !in paths || p in Keys(old(ws.fileCache)) ==> Get(ws.fileCache, p) == Get(old(ws.fileCache), p)
      ensures ws.projectRoot == old(ws.projectRoot) && ws.groups == old(ws.groups) && ws.viewMode == old(ws.viewMode)
      ensures ws.activeGroupId == old(ws.activeGroupId) && ws.activeLanguage == old(ws.activeLanguage)
      ensures ws.loadedGroups == old(ws.loadedGroups) && ws.isScanning == old(ws.isScanning) && ws.scanError == old(ws.scanError)
    {
      var i := 0;
      while i < |paths|
        invariant 0 <= i <= |paths|
        invariant ws.Valid()
        invariant ws.fileCache == CacheAfterLoads(old(ws.fileCache), paths[..i], read)
        invariant ws.projectRoot == old(ws.projectRoot) && ws.groups == old(ws.groups) && ws.viewMode == old(ws.viewMode)
        invariant ws.activeGroupId == old(ws.activeGroupId) && ws.activeLanguage == old(ws.activeLanguage)
        invariant ws.loadedGroups == old(ws.loadedGroups) && ws.isScanning == old(ws.isScanning) && ws.scanError == old(ws.scanError)
      {
        var p := paths[i];
        assert paths[..i + 1][..i] == paths[..i];
        LoadInto(ws, p, read(p));
        i := i + 1;
      }
      assert paths[..i] == paths;
      forall p | p in paths
        ensures p in Keys(ws.fileCache) <==> p in Keys(old(ws.fileCache)) || read(p).Ok?
      {
        CacheAfterLoadsKeys(old(ws.fileCache), paths, read, p);
      }
      forall p | p !in paths || p in Keys(old(ws.fileCache))
        ensures Get(ws.fileCache, p) == Get(old(ws.fileCache), p)
      {
        CacheAfterLoadsUntouched(old(ws.fileCache), paths, read, p);
      }
    }

    /** loadGroup: load every file of the group, mark it most recently loaded,
        evict beyond ten, with the loading flag set around it. */
    method LoadGroup(ws: WorkspaceStore.Workspace, ui: UiStore.Ui, group: TranslationGroup, read: string -> Result<XliffDocument>)
      requires ws.Valid()
      modifies ws, ui
      ensures ws.Valid()
      ensures var loaded := WorkspaceStore.MarkLoaded(old(ws.loadedGroups), group.id);
        ws.loadedGroups == loaded[WorkspaceStore.Overflow(loaded)..]
      ensures |ws.loadedGroups| <= WorkspaceStore.MaxCachedGroups
      ensures UniqueKeys(CacheAfterLoads(old(ws.fileCache), WorkspaceStore.FilePaths(group.files), read))
      ensures var loaded := WorkspaceStore.MarkLoaded(old(ws.loadedGroups), group.id);
        ws.fileCache == WorkspaceStore.DeleteAll(
          CacheAfterLoads(old(ws.fileCache), WorkspaceStore.FilePaths(group.files), read),
          WorkspaceStore.EvictedPaths(ws.groups, loaded[..WorkspaceStore.Overflow(loaded)]))
      ensures |ws.loadedGroups| > 0 && ws.loadedGroups[|ws.loadedGroups| - 1] == group.id
      ensures ws.projectRoot == old(ws.projectRoot) && ws.groups == old(ws.groups) && ws.viewMode == old(ws.viewMode)
      ensures ws.activeGroupId == old(ws.activeGroupId) && ws.activeLanguage == old(ws.activeLanguage)
      ensures ws.isScanning == old(ws.isScanning) && ws.scanError == old(ws.scanError)
      ensures !ui.isLoading && ui.loadingMessage == None
      ensures ui.notifications == old(ui.notifications) && ui.activeDialog == old(ui.activeDialog) && ui.settings == old(ui.settings)
      ensures ui.sidebarCollapsed == old(ui.sidebarCollapsed) && ui.sidebarWidth == old(ui.sidebarWidth)
      ensures ui.theme == old(ui.theme) && ui.resolvedTheme == old(ui.resolvedTheme)
    {
      CacheAfterLoadsUnique(ws.fileCache, WorkspaceStore.FilePaths(group.files), read);
      ui.SetLoading(true, Some("Loading " + group.baseName + "..."));
      LoadAndMark(ws, group, read);
      ui.SetLoading(false, None);
    }

    /** The workspace side of loadGroup: load the group's files, mark it most
        recently loaded and evict groups beyond ten. */
    method LoadAndMark(ws: WorkspaceStore.Workspace, group: TranslationGroup, read: string -> Result<XliffDocument>)
      requires ws.Valid()
      modifies ws
      ensures ws.Valid()
      ensures var loaded := WorkspaceStore.MarkLoaded(old(ws.loadedGroups), group.id);
        ws.loadedGroups == loaded[WorkspaceStore.Overflow(loaded)..]
      ensures |ws.loadedGroups| <= WorkspaceStore.MaxCachedGroups
      ensures UniqueKeys(CacheAfterLoads(old(ws.fileCache), WorkspaceStore.FilePaths(group.files), read))
      ensures var loaded := WorkspaceStore.MarkLoaded(old(ws.loadedGroups), group.id);
        ws.fileCache == WorkspaceStore.DeleteAll(
          CacheAfterLoads(old(ws.fileCache), WorkspaceStore.FilePaths(group.files), read),
          WorkspaceStore.EvictedPaths(ws.groups, loaded[..WorkspaceStore.Overflow(loaded)]))
      ensures |ws.loadedGroups| > 0 && ws.loadedGroups[|ws.loadedGroups| - 1] == group.id
      ensures ws.projectRoot == old(ws.projectRoot) && ws.groups == old(ws.groups) && ws.viewMode == old(ws.viewMode)
      ensures ws.activeGroupId == old(ws.activeGroupId) && ws.activeLanguage == old(ws.activeLanguage)
      ensures ws.isScanning == old(ws.isScanning) && ws.scanError == old(ws.scanError)
    {
      CacheAfterLoadsUnique(ws.fileCache, WorkspaceStore.FilePaths(group.files), read);
      LoadFiles(ws, WorkspaceStore.FilePaths(group.files), read);
      ws.MarkGroupLoaded(group.id);
      ws.EvictOldGroups();
    }

    /** The loop over one matching unit's changes in saveFile. */
    static method ApplyEntryToUnit(unit: XliffUnit, changes: seq<UnitChange>) returns (u: XliffUnit)
      ensures u == ApplyXliffChanges(unit, changes)
    {
      u := unit;
      for ci := 0 to |changes|
        invariant u == ApplyXliffChanges(unit, changes[..ci])
      {
        var change := changes[ci];
        assert changes[..ci + 1][..ci] == changes[..ci];
        if change.field == Target {
          u := u.(target := Some(change.newValue));
        } else if change.field == Source {
          u := u.(source := change.newValue);
        } else if change.field == Id {
          u := u.(id := change.newValue);
        }
      }
      assert changes[..|changes|] == changes;
    }

    /** The loop over one file's units for one dirty entry. */
    static method ApplyEntryToFile(file: XliffFile, e: (string, seq<UnitChange>)) returns (updated: XliffFile)
      ensures updated == FileWithEntry(file, e)
    {
      var units := file.units;
      for ui := 0 to |units|
        invariant |units| == |file.units|
        invariant forall j :: 0 <= j < ui ==> units[j] == EntryApplied(file.units[j], e)
        invariant forall j :: ui <= j < |units| ==> units[j] == file.units[j]
      {
        if units[ui].id == e.0 {
          var unit := ApplyEntryToUnit(units[ui], e.1);
          units := units[ui := unit];
        }
      }
      updated := file.(units := units);
    }

    /** The loop over the copy's files for one dirty entry. */
    static method ApplyEntryToDocument(doc: XliffDocument, e: (string, seq<UnitChange>)) returns (updated: XliffDocument)
      ensures updated == DocumentWithEntry(doc, e)
    {
      var files := doc.files;
      for fi := 0 to |files|
        invariant |files| == |doc.files|
        invariant forall j :: 0 <= j < fi ==> files[j] == FileWithEntry(doc.files[j], e)
        invariant forall j :: fi <= j < |files| ==> files[j] == doc.files[j]
      {
        var file := ApplyEntryToFile(files[fi], e);
        files := files[fi := file];
      }
      updated := doc.(files := files);
    }

    /** The outer loop of saveFile over the dirty entries, on the deep copy. */
    static method ApplyToDocument(doc: XliffDocument, dirty: EditorStore.FileChanges) returns (updated: XliffDocument)
      ensures updated == SavedDocument(doc, dirty)
    {
      updated := doc;
      for k := 0 to |dirty|
        invariant updated == SavedDocument(doc, dirty[..k])
      {
        assert dirty[..k + 1][..k] == dirty[..k];
        updated := ApplyEntryToDocument(updated, dirty[k]);
      }
      assert dirty[..|dirty|] == dirty;
    }

    /** The `newUnits` map of saveFile. */
    static method ApplyToUnits(units: seq<TranslationUnit>, dirty: EditorStore.FileChanges) returns (newUnits: seq<TranslationUnit>)
      ensures newUnits == SavedUnits(units, dirty)
    {
      newUnits := [];
      for i := 0 to |units|
        invariant |newUnits| == i
        invariant forall k :: 0 <= k < i ==> newUnits[k] == SavedUnit(units[k], dirty)
      {
        var unit := units[i];
        var changes := Get(dirty, unit.id);
        if changes.Some? {
          var cs := changes.value;
          var updated := unit;
          for c := 0 to |cs|
            invariant updated == ApplyUnitChanges(unit, cs[..c])
          {
            var change := cs[c];
            assert cs[..c + 1][..c] == cs[..c];
            if change.field == Target {
              updated := updated.(target := change.newValue);
            }
            if change.field == Source {
              updated := updated.(source := change.newValue);
            }
            if change.field == Id {
              updated := updated.(id := change.newValue);
            }
          }
          assert cs[..|cs|] == cs;
          unit := updated;
        }
        newUnits := newUnits + [unit];
      }
    }

    /** saveFile: a cached file with dirty changes is written with them
        applied; on success its cache entry takes the changed document and
        units and its dirty state is cleared. The path is marked recently
        saved just before the write; its removal two seconds later is
        ForgetRecentlySaved. */
    method SaveFile(ws: WorkspaceStore.Workspace, ed: EditorStore.Editor, ui: UiStore.Ui,
                    filePath: string, outcome: SaveOutcome, noticeId: string)
      requires ws.Valid() && ed.Valid()
      modifies this, ws, ed, ui
      ensures ws.Valid() && ed.Valid()
      ensures old(ws.GetFileData(filePath)).None? || old(ed.GetChangesForFile(filePath)) == [] ==>
        && ws.fileCache == old(ws.fileCache) && ed.dirtyUnits == old(ed.dirtyUnits)
        && ui.notifications == old(ui.notifications) && recentlySaved == old(recentlySaved)
      ensures old(ws.GetFileData(filePath)).Some? && old(ed.GetChangesForFile(filePath)) != [] && outcome.Written? ==>
        var data := old(ws.GetFileData(filePath)).value;
        var dirty := old(ed.GetChangesForFile(filePath));
        && ws.fileCache == Put(old(ws.fileCache), filePath,
             data.(xliffData := SavedDocument(data.xliffData, dirty), units := SavedUnits(data.units, dirty)))
        && ed.dirtyUnits == EditorStore.Cleared(old(ed.dirtyUnits), filePath, None)
        && recentlySaved == old(recentlySaved) + {filePath}
        && ui.notifications == old(ui.notifications) + [UiStore.Notification(noticeId,
             UiStore.NotificationContent(UiStore.Success, "File saved", Some(AfterLast(filePath, '/')), None))]
      ensures old(ws.GetFileData(filePath)).Some? && old(ed.GetChangesForFile(filePath)) != [] && !outcome.Written? ==>
        && ws.fileCache == old(ws.fileCache) && ed.dirtyUnits == old(ed.dirtyUnits)
        && recentlySaved == (if outcome.WriteFailed? then old(recentlySaved) + {filePath} else old(recentlySaved))
        && ui.notifications == old(ui.notifications) + [UiStore.Notification(noticeId,
             UiStore.NotificationContent(UiStore.Error, "Save failed", Some(outcome.message), None))]
      ensures ws.projectRoot == old(ws.projectRoot) && ws.groups == old(ws.groups) && ws.viewMode == old(ws.viewMode)
      ensures ws.activeGroupId == old(ws.activeGroupId) && ws.activeLanguage == old(ws.activeLanguage)
      ensures ws.loadedGroups == old(ws.loadedGroups) && ws.isScanning == old(ws.isScanning) && ws.scanError == old(ws.scanError)
      ensures ed.focusedUnitId == old(ed.focusedUnitId) && ed.focusedField == old(ed.focusedField) && ed.sortMode == old(ed.sortMode)
      ensures ed.searchQuery == old(ed.searchQuery) && ed.showOnlyMissing == old(ed.showOnlyMissing)
      ensures ed.editingUnitId == old(ed.editingUnitId) && ed.editingField == old(ed.editingField)
      ensures ui.activeDialog == old(ui.activeDialog) && ui.settings == old(ui.settings) && ui.isLoading == old(ui.isLoading)
      ensures ui.loadingMessage == old(ui.loadingMessage) && ui.sidebarCollapsed == old(ui.sidebarCollapsed)
      ensures ui.sidebarWidth == old(ui.sidebarWidth) && ui.theme == old(ui.theme) && ui.resolvedTheme == old(ui.resolvedTheme)
    {
      var fileData := ws.GetFileData(filePath);
      if fileData.None? {
        return;
      }
      var dirty := ed.GetChangesForFile(filePath);
      if dirty == [] {
        return;
      }
      var updatedData := ApplyToDocument(fileData.value.xliffData, dirty);
      if outcome.SerializeFailed? {
        ui.AddNotification(noticeId, UiStore.NotificationContent(UiStore.Error, "Save failed", Some(outcome.message), None));
        return;
      }
      recentlySaved := recentlySaved + {filePath};
      if outcome.WriteFailed? {
        ui.AddNotification(noticeId, UiStore.NotificationContent(UiStore.Error, "Save failed", Some(outcome.message), None));
        return;
      }
      StoreSaved(ws, ed, ui, filePath, fileData.value, dirty, updatedData, noticeId);
    }

    /** The end of a written save: the cache takes the saved document and the
        units with the dirty changes, the file's dirty state is cleared, and a
        success notice names the file. */
    static method StoreSaved(ws: WorkspaceStore.Workspace, ed: EditorStore.Editor, ui: UiStore.Ui, filePath: string,
                             data: FileData, dirty: EditorStore.FileChanges, updatedData: XliffDocument, noticeId: string)
      requires ws.Valid() && ed.Valid()
      requires updatedData == SavedDocument(data.xliffData, dirty)
      modifies ws, ed, ui
      ensures ws.Valid() && ed.Valid()
      ensures ws.fileCache == Put(old(ws.fileCache), filePath, data.(xliffData := updatedData, units := SavedUnits(data.units, dirty)))
      ensures ed.dirtyUnits == EditorStore.Cleared(old(ed.dirtyUnits), filePath, None)
      ensures ui.notifications == old(ui.notifications) + [UiStore.Notification(noticeId,
        UiStore.NotificationContent(UiStore.Success, "File saved", Some(AfterLast(filePath, '/')), None))]
      ensures ws.projectRoot == old(ws.projectRoot) && ws.groups == old(ws.groups) && ws.viewMode == old(ws.viewMode)
      ensures ws.activeGroupId == old(ws.activeGroupId) && ws.activeLanguage == old(ws.activeLanguage)
      ensures ws.loadedGroups == old(ws.loadedGroups) && ws.isScanning == old(ws.isScanning) && ws.scanError == old(ws.scanError)
      ensures ed.focusedUnitId == old(ed.focusedUnitId) && ed.focusedField == old(ed.focusedField) && ed.sortMode == old(ed.sortMode)
      ensures ed.searchQuery == old(ed.searchQuery) && ed.showOnlyMissing == old(ed.showOnlyMissing)
      ensures ed.editingUnitId == old(ed.editingUnitId) && ed.editingField == old(ed.editingField)
      ensures ui.activeDialog == old(ui.activeDialog) && ui.settings == old(ui.settings) && ui.isLoading == old(ui.isLoading)
      ensures ui.loadingMessage == old(ui.loadingMessage) && ui.sidebarCollapsed == old(ui.sidebarCollapsed)
      ensures ui.sidebarWidth == old(ui.sidebarWidth) && ui.theme == old(ui.theme) && ui.resolvedTheme == old(ui.resolvedTheme)
    {
      var newUnits := ApplyToUnits(data.units, dirty);
      ws.CacheFileData(filePath, data.(xliffData := updatedData, units := newUnits));
      ed.ClearChanges(filePath, None);
      ui.AddNotification(noticeId, UiStore.NotificationContent(UiStore.Success, "File saved", Some(AfterLast(filePath, '/')), None));
    }

    /** The `setTimeout` that ends a path's recently-saved window. */
    method ForgetRecentlySaved(filePath: string)
      modifies this
      ensures recentlySaved == old(recentlySaved) - {filePath}
    {
      recentlySaved := recentlySaved - {filePath};
    }

    /** loadFile on a path that is already cached: the cached entry comes
        back and the store is left as it was. */
    method ReloadCached(ws: WorkspaceStore.Workspace, filePath: string, content: Result<XliffDocument>)
      requires ws.Valid() && ws.GetFileData(filePath).Some?
      modifies ws
      ensures ws.Valid()
      ensures ws.fileCache == old(ws.fileCache)
      ensures ws.projectRoot == old(ws.projectRoot) && ws.groups == old(ws.groups) && ws.viewMode == old(ws.viewMode)
      ensures ws.activeGroupId == old(ws.activeGroupId) && ws.activeLanguage == old(ws.activeLanguage)
      ensures ws.loadedGroups == old(ws.loadedGroups) && ws.isScanning == old(ws.isScanning) && ws.scanError == old(ws.scanError)
    {
      var _ := LoadFile(ws, filePath, content);
    }

    /** The 'file-changed' listener. An event on a recently saved path is
        ignored. A 'modify' of a cached file opens the conflict dialog when it
        has unsaved changes, and otherwise calls loadFile, which returns the
        cached entry, and posts an info toast; a 'delete' posts a warning;
        anything else does nothing. */
    method OnFileChanged(ws: WorkspaceStore.Workspace, ed: EditorStore.Editor, ui: UiStore.Ui,
                         event: FileWatchEvent, content: Result<XliffDocument>, noticeId: string)
      requires ws.Valid() && ed.Valid()
      modifies ws, ui
      ensures ws.Valid()
      ensures ws.fileCache == old(ws.fileCache)
      ensures event.path in recentlySaved ==> ui.activeDialog == old(ui.activeDialog) && ui.notifications == old(ui.notifications)
      ensures (event.path !in recentlySaved && event.kind == ModifyEvent && old(ws.GetFileData(event.path)).Some? &&
               EditorStore.HasUnsavedChanges(ed.dirtyUnits, Some(event.path))) ==>
        && ui.activeDialog == UiStore.DialogState(Some(UiStore.ConflictDialog), Some([("filePath", event.path)]))
        && ui.notifications == old(ui.notifications)
      ensures (event.path !in recentlySaved && event.kind == ModifyEvent && old(ws.GetFileData(event.path)).Some? &&
               !EditorStore.HasUnsavedChanges(ed.dirtyUnits, Some(event.path))) ==>
        && ui.activeDialog == old(ui.activeDialog)
        && ui.notifications == old(ui.notifications) + [UiStore.Notification(noticeId,
             UiStore.NotificationContent(UiStore.Info, "File updated", Some(AfterLast(event.path, '/')), Some(3000)))]
      ensures event.path !in recentlySaved && event.kind == ModifyEvent && old(ws.GetFileData(event.path)).None? ==>
        ui.activeDialog == old(ui.activeDialog) && ui.notifications == old(ui.notifications)
      ensures event.path !in recentlySaved && event.kind == DeleteEvent ==>
        && ui.activeDialog == old(ui.activeDialog)
        && ui.notifications == old(ui.notifications) + [UiStore.Notification(noticeId,
             UiStore.NotificationContent(UiStore.Warning, "File deleted", Some(AfterLast(event.path, '/')), None))]
      ensures event.kind == CreateEvent || event.kind == RenameEvent ==>
        ui.activeDialog == old(ui.activeDialog) && ui.notifications == old(ui.notifications)
      ensures ws.projectRoot == old(ws.projectRoot) && ws.groups == old(ws.groups) && ws.viewMode == old(ws.viewMode)
      ensures ws.activeGroupId == old(ws.activeGroupId) && ws.activeLanguage == old(ws.activeLanguage)
      ensures ws.loadedGroups == old(ws.loadedGroups) && ws.isScanning == old(ws.isScanning) && ws.scanError == old(ws.scanError)
      ensures ui.settings == old(ui.settings) && ui.isLoading == old(ui.isLoading) && ui.loadingMessage == old(ui.loadingMessage)
      ensures ui.sidebarCollapsed == old(ui.sidebarCollapsed) && ui.sidebarWidth == old(ui.sidebarWidth)
      ensures ui.theme == old(ui.theme) && ui.resolvedTheme == old(ui.resolvedTheme)
    {
      if event.path in recentlySaved {
        return;
      }
      if event.kind == ModifyEvent {
        var cached := ws.GetFileData(event.path);
        var isDirty := EditorStore.HasUnsavedChanges(ed.dirtyUnits, Some(event.path));
        if cached.Some? && isDirty {
          ui.OpenDialog(UiStore.ConflictDialog, Some([("filePath", event.path)]));
        } else if cached.Some? {
          ReloadCached(ws, event.path, content);
          ui.AddNotification(noticeId, UiStore.NotificationContent(UiStore.Info, "File updated", Some(AfterLast(event.path, '/')), Some(3000)));
        }
      } else if event.kind == DeleteEvent {
        ui.AddNotification(noticeId, UiStore.NotificationContent(UiStore.Warning, "File deleted", Some(AfterLast(event.path, '/')), None));
      }
    }

    /** The conflict dialog's onReload: loadFile on the cached path returns the
        cached entry without reading, and the local changes are dropped. */
    method ConflictReload(ws: WorkspaceStore.Workspace, ed: EditorStore.Editor, filePath: string, content: Result<XliffDocument>)
      requires ws.Valid() && ed.Valid()
      modifies ws, ed
      ensures ws.Valid() && ed.Valid()
      ensures ws.fileCache == old(ws.fileCache)
      ensures old(ws.GetFileData(filePath)).Some? ==> ed.dirtyUnits == EditorStore.Cleared(old(ed.dirtyUnits), filePath, None)
      ensures ws.projectRoot == old(ws.projectRoot) && ws.groups == old(ws.groups) && ws.viewMode == old(ws.viewMode)
      ensures ws.activeGroupId == old(ws.activeGroupId) && ws.activeLanguage == old(ws.activeLanguage)
      ensures ws.loadedGroups == old(ws.loadedGroups) && ws.isScanning == old(ws.isScanning) && ws.scanError == old(ws.scanError)
      ensures ed.focusedUnitId == old(ed.focusedUnitId) && ed.focusedField == old(ed.focusedField) && ed.sortMode == old(ed.sortMode)
      ensures ed.searchQuery == old(ed.searchQuery) && ed.showOnlyMissing == old(ed.showOnlyMissing)
      ensures ed.editingUnitId == old(ed.editingUnitId) && ed.editingField == old(ed.editingField)
    {
      var cached := ws.GetFileData(filePath);
      if cached.None? {
        // Not reachable from the dialog, which opens only for cached files;
        // loadFile would read the file here.
        return;
      }
      var newData := LoadFile(ws, filePath, content);
      if newData.Some? {
        ed.ClearChanges(filePath, None);
      }
    }
  }
}
