/**
 * The history hook (frontend/src/hooks/useHistory.ts): applying a history
 * entry's changes to a cached file, forwards for redo and backwards for
 * undo; committing a file's pending edits as one history entry; and the
 * undo and redo actions that tie the history, editor, workspace and UI
 * stores together.
 */
module UseHistory {
  import opened Common
  import opened Types
  import HistoryStore
  import EditorStore
  import WorkspaceStore
  import UiStore
  import UseWorkspace

  // ---------------------------------------------------------------------
  // applyChanges
  // ---------------------------------------------------------------------

  /** A change read backwards: what undo writes is the oldValue. */
  function Reversed(c: UnitChange): (r: UnitChange)
    ensures r.unitId == c.unitId && r.field == c.field && r.timestamp == c.timestamp
    ensures r.oldValue == c.newValue && r.newValue == c.oldValue
  {
    c.(oldValue := c.newValue, newValue := c.oldValue)
  }

  /** The changes as applyChanges writes them: `reverse ? oldValue : newValue`. */
  function Oriented(cs: seq<UnitChange>, reverse: bool): (r: seq<UnitChange>)
    ensures |r| == |cs|
    ensures forall i :: 0 <= i < |cs| ==> r[i] == if reverse then Reversed(cs[i]) else cs[i]
  {
    if reverse then seq(|cs|, i requires 0 <= i < |cs| => Reversed(cs[i])) else cs
  }

  /** `changes.filter(c => c.unitId === unit.id)` */
  function ChangesFor(cs: seq<UnitChange>, id: string): (r: seq<UnitChange>)
    ensures forall c :: c in r <==> c in cs && c.unitId == id
  {
    Filter(cs, (c: UnitChange) => c.unitId == id)
  }

  /** One editor unit after applyChanges. Changes are matched on the unit's
      id before any of them is applied. */
  function AppliedUnit(u: TranslationUnit, cs: seq<UnitChange>, reverse: bool): TranslationUnit {
    var m := ChangesFor(cs, u.id);
    if m == [] then u else UseWorkspace.ApplyUnitChanges(u, Oriented(m, reverse))
  }

  /** The `fileData.units.map(...)` of applyChanges. */
  function AppliedUnits(units: seq<TranslationUnit>, cs: seq<UnitChange>, reverse: bool): (r: seq<TranslationUnit>)
    ensures |r| == |units|
    ensures forall i :: 0 <= i < |units| ==> r[i] == AppliedUnit(units[i], cs, reverse)
  {
    seq(|units|, i requires 0 <= i < |units| => AppliedUnit(units[i], cs, reverse))
  }

  function AppliedXliffUnit(u: XliffUnit, cs: seq<UnitChange>, reverse: bool): XliffUnit {
    UseWorkspace.ApplyXliffChanges(u, Oriented(ChangesFor(cs, u.id), reverse))
  }

  function AppliedXliffFile(f: XliffFile, cs: seq<UnitChange>, reverse: bool): (r: XliffFile)
    ensures r.sourceLanguage == f.sourceLanguage && r.targetLanguage == f.targetLanguage
    ensures |r.units| == |f.units|
    ensures forall j :: 0 <= j < |f.units| ==> r.units[j] == AppliedXliffUnit(f.units[j], cs, reverse)
  {
    f.(units := seq(|f.units|, j requires 0 <= j < |f.units| => AppliedXliffUnit(f.units[j], cs, reverse)))
  }

  /** The copied xliffData after the nested loops of applyChanges. */
  function AppliedDocument(doc: XliffDocument, cs: seq<UnitChange>, reverse: bool): (r: XliffDocument)
    ensures r.version == doc.version && |r.files| == |doc.files|
    ensures forall i :: 0 <= i < |doc.files| ==> r.files[i] == AppliedXliffFile(doc.files[i], cs, reverse)
  {
    doc.(files := seq(|doc.files|, i requires 0 <= i < |doc.files| => AppliedXliffFile(doc.files[i], cs, reverse)))
  }

  /** The entry cacheFileData receives. */
  function AppliedFileData(fd: FileData, cs: seq<UnitChange>, reverse: bool): FileData {
    fd.(units := AppliedUnits(fd.units, cs, reverse), xliffData := AppliedDocument(fd.xliffData, cs, reverse))
  }

  /** The last change to field f in the list, if any. */
  function LastFieldChange(cs: seq<UnitChange>, f: Field): (r: Option<UnitChange>)
    ensures r.Some? ==> r.value in cs && r.value.field == f
    ensures r.None? <==> forall c :: c in cs ==> c.field != f
  {
    if cs == [] then None
    else if cs[|cs| - 1].field == f then Some(cs[|cs| - 1])
    else LastFieldChange(cs[..|cs| - 1], f)
  }

  /** Changes are written in list order, so each field ends with the value
      of the last change to it, and a field no change names is untouched. */
  lemma {:induction false} LastChangeWins(u: TranslationUnit, cs: seq<UnitChange>, f: Field)
    ensures FieldOf(UseWorkspace.ApplyUnitChanges(u, cs), f) == match LastFieldChange(cs, f)
      case Some(c) => c.newValue
      case None => FieldOf(u, f)
  {
    if cs != [] {
      LastChangeWins(u, cs[..|cs| - 1], f);
    }
  }

  lemma {:induction false} LastFieldChangeOriented(cs: seq<UnitChange>, f: Field, reverse: bool)
    ensures LastFieldChange(Oriented(cs, reverse), f) == match LastFieldChange(cs, f)
      case Some(c) => Some(if reverse then Reversed(c) else c)
      case None => None
  {
    if cs != [] && reverse {
      assert Oriented(cs, reverse)[..|cs| - 1] == Oriented(cs[..|cs| - 1], reverse);
      LastFieldChangeOriented(cs[..|cs| - 1], f, reverse);
    }
  }

  /** Each field of an applied unit: the oldValue (undo) or newValue (redo)
      of the last change to it among the changes for that unit's id. */
  lemma AppliedUnitField(u: TranslationUnit, cs: seq<UnitChange>, reverse: bool, f: Field)
    ensures FieldOf(AppliedUnit(u, cs, reverse), f) == match LastFieldChange(ChangesFor(cs, u.id), f)
      case Some(c) => if reverse then c.oldValue else c.newValue
      case None => FieldOf(u, f)
  {
    var m := ChangesFor(cs, u.id);
    if m != [] {
      LastChangeWins(u, Oriented(m, reverse), f);
      LastFieldChangeOriented(m, f, reverse);
    }
  }

  /** The changes of an entry recorded against the unit u, none of them a
      rename: each one's oldValue is what u holds in that field. */
  ghost predicate RecordedAgainst(u: TranslationUnit, cs: seq<UnitChange>) {
    forall c :: c in cs && c.unitId == u.id ==> c.field != Id && c.oldValue == FieldOf(u, c.field)
  }

  /** The same entry, seen from the unit it produced: each one's newValue is
      what v holds. */
  ghost predicate RecordedInto(v: TranslationUnit, cs: seq<UnitChange>) {
    forall c :: c in cs && c.unitId == v.id ==> c.field != Id && c.newValue == FieldOf(v, c.field)
  }

  lemma FieldsEqual(a: TranslationUnit, b: TranslationUnit)
    requires forall f :: FieldOf(a, f) == FieldOf(b, f)
    ensures a == b
  {
    assert FieldOf(a, Id) == FieldOf(b, Id);
    assert FieldOf(a, Source) == FieldOf(b, Source);
    assert FieldOf(a, Target) == FieldOf(b, Target);
  }

  /** Redo then undo of an entry without renames gives the unit back, when
      the entry was recorded against it. */
  lemma RedoThenUndoUnit(u: TranslationUnit, cs: seq<UnitChange>)
    requires RecordedAgainst(u, cs)
    ensures AppliedUnit(AppliedUnit(u, cs, false), cs, true) == u
  {
    var v := AppliedUnit(u, cs, false);
    AppliedUnitField(u, cs, false, Id);
    assert v.id == u.id;
    forall f ensures FieldOf(AppliedUnit(v, cs, true), f) == FieldOf(u, f) {
      AppliedUnitField(u, cs, false, f);
      AppliedUnitField(v, cs, true, f);
    }
    FieldsEqual(AppliedUnit(v, cs, true), u);
  }

  /** Undo then redo of an entry without renames gives the unit back, when
      the unit holds what the entry wrote. */
  lemma UndoThenRedoUnit(v: TranslationUnit, cs: seq<UnitChange>)
    requires RecordedInto(v, cs)
    ensures AppliedUnit(AppliedUnit(v, cs, true), cs, false) == v
  {
    var u := AppliedUnit(v, cs, true);
    AppliedUnitField(v, cs, true, Id);
    assert u.id == v.id;
    forall f ensures FieldOf(AppliedUnit(u, cs, false), f) == FieldOf(v, f) {
      AppliedUnitField(v, cs, true, f);
      AppliedUnitField(u, cs, false, f);
    }
    FieldsEqual(AppliedUnit(u, cs, false), v);
  }

  /** Changes are matched by the id they were recorded under, so once a
      rename has been applied the undo finds no change for the renamed unit
      and leaves it renamed. */
  lemma UndoMissesRenamedUnit()
    ensures var cs := [UnitChange("a", Id, "a", "b", 0)];
      var u := TranslationUnit("a", "S", "T");
      && AppliedUnit(u, cs, false) == TranslationUnit("b", "S", "T")
      && AppliedUnit(AppliedUnit(u, cs, false), cs, true) == TranslationUnit("b", "S", "T")
  {
    var cs := [UnitChange("a", Id, "a", "b", 0)];
    var u := TranslationUnit("a", "S", "T");
    assert ChangesFor(cs, "a") == cs;
    assert ChangesFor(cs, "b") == [];
    AppliedUnitField(u, cs, false, Id);
    AppliedUnitField(u, cs, false, Source);
    AppliedUnitField(u, cs, false, Target);
    FieldsEqual(AppliedUnit(u, cs, false), TranslationUnit("b", "S", "T"));
  }

  /** The unit list: undo after redo restores it unit for unit. */
  lemma RedoThenUndoUnits(units: seq<TranslationUnit>, cs: seq<UnitChange>)
    requires forall i :: 0 <= i < |units| ==> RecordedAgainst(units[i], cs)
    ensures AppliedUnits(AppliedUnits(units, cs, false), cs, true) == units
  {
    forall i | 0 <= i < |units|
      ensures AppliedUnits(AppliedUnits(units, cs, false), cs, true)[i] == units[i]
    {
      RedoThenUndoUnit(units[i], cs);
    }
  }

  /** The xliff copy gets the same writes as the unit list: each unit of
      each file, seen as an editor unit, is what applyChanges makes of it. */
  lemma AppliedDocumentMatchesUnits(doc: XliffDocument, cs: seq<UnitChange>, reverse: bool, i: int, j: int)
    requires 0 <= i < |doc.files| && 0 <= j < |doc.files[i].units|
    ensures ToTranslationUnit(AppliedDocument(doc, cs, reverse).files[i].units[j]) ==
      AppliedUnit(ToTranslationUnit(doc.files[i].units[j]), cs, reverse)
  {
    var u := doc.files[i].units[j];
    UseWorkspace.ApplyChangesCommutesWithView(u, Oriented(ChangesFor(cs, u.id), reverse));
  }

  // ---------------------------------------------------------------------
  // commitChanges, and the re-tracking of undo and redo
  // ---------------------------------------------------------------------

  /** `for (const changes of dirtyChanges.values()) allChanges.push(...changes)` */
  function Flatten(fc: EditorStore.FileChanges): seq<UnitChange> {
    if fc == [] then [] else Flatten(fc[..|fc| - 1]) + fc[|fc| - 1].1
  }

  /** A change is in the flattened list exactly when some unit entry holds it. */
  lemma {:induction false} FlattenMembers(fc: EditorStore.FileChanges, c: UnitChange)
    ensures c in Flatten(fc) <==> exists e :: e in fc && c in e.1
  {
    if fc != [] {
      FlattenMembers(fc[..|fc| - 1], c);
      assert forall e :: e in fc <==> e in fc[..|fc| - 1] || e == fc[|fc| - 1];
    }
  }

  /** The changes undo and redo hand to trackChange: swapped for undo, as
      they were for redo, all stamped with the current time. */
  function Retracked(cs: seq<UnitChange>, reverse: bool, now: int): (r: seq<UnitChange>)
    ensures |r| == |cs|
    ensures forall i :: 0 <= i < |cs| ==> r[i] == (if reverse then Reversed(cs[i]) else cs[i]).(timestamp := now)
  {
    seq(|cs|, i requires 0 <= i < |cs| => (if reverse then Reversed(cs[i]) else cs[i]).(timestamp := now))
  }

  /** trackChange called once per change, in order. */
  function TrackAll(dirty: EditorStore.DirtyUnits, filePath: string, cs: seq<UnitChange>): (r: EditorStore.DirtyUnits)
    requires EditorStore.WellFormed(dirty)
    ensures EditorStore.WellFormed(r)
  {
    if cs == [] then dirty else EditorStore.Tracked(TrackAll(dirty, filePath, cs[..|cs| - 1]), filePath, cs[|cs| - 1])
  }

  /** Re-tracking leaves the other files' pending changes alone. */
  lemma {:induction false} TrackAllOtherFiles(dirty: EditorStore.DirtyUnits, filePath: string, cs: seq<UnitChange>, p: string)
    requires EditorStore.WellFormed(dirty) && p != filePath
    ensures Get(TrackAll(dirty, filePath, cs), p) == Get(dirty, p)
  {
    if cs != [] {
      TrackAllOtherFiles(dirty, filePath, cs[..|cs| - 1], p);
    }
  }

  // ---------------------------------------------------------------------
  // The hook's actions, on the stores they use
  // ---------------------------------------------------------------------

  /** The loop over one unit's changes, on the spread copy. */
  method ApplyToUnit(unit: TranslationUnit, unitChanges: seq<UnitChange>, reverse: bool) returns (u: TranslationUnit)
    ensures u == UseWorkspace.ApplyUnitChanges(unit, Oriented(unitChanges, reverse))
  {
    u := unit;
    for k := 0 to |unitChanges|
      invariant u == UseWorkspace.ApplyUnitChanges(unit, Oriented(unitChanges[..k], reverse))
    {
      var change := unitChanges[k];
      var value := if reverse then change.oldValue else change.newValue;
      assert Oriented(unitChanges[..k + 1], reverse)[..k] == Oriented(unitChanges[..k], reverse);
      u := WithField(u, change.field, value);
    }
    assert unitChanges[..|unitChanges|] == unitChanges;
  }

  /** The units map: the changes for each unit, written in order. */
  method ApplyToUnits(units: seq<TranslationUnit>, changes: seq<UnitChange>, reverse: bool) returns (updated: seq<TranslationUnit>)
    ensures updated == AppliedUnits(units, changes, reverse)
  {
    updated := [];
    for i := 0 to |units|
      invariant |updated| == i
      invariant forall j :: 0 <= j < i ==> updated[j] == AppliedUnit(units[j], changes, reverse)
    {
      var unit := units[i];
      var unitChanges := ChangesFor(changes, unit.id);
      if unitChanges == [] {
        updated := updated + [unit];
      } else {
        var u := ApplyToUnit(unit, unitChanges, reverse);
        updated := updated + [u];
      }
    }
  }

  /** The innermost loop of applyChanges: one xliff unit's changes, in order. */
  method ApplyToXliffUnit(unit: XliffUnit, changes: seq<UnitChange>, reverse: bool) returns (u: XliffUnit)
    ensures u == AppliedXliffUnit(unit, changes, reverse)
  {
    var unitChanges := ChangesFor(changes, unit.id);
    u := unit;
    for k := 0 to |unitChanges|
      invariant u == UseWorkspace.ApplyXliffChanges(unit, Oriented(unitChanges[..k], reverse))
    {
      var change := unitChanges[k];
      var value := if reverse then change.oldValue else change.newValue;
      assert Oriented(unitChanges[..k + 1], reverse)[..k] == Oriented(unitChanges[..k], reverse);
      u := XliffWithField(u, change.field, value);
    }
    assert unitChanges[..|unitChanges|] == unitChanges;
  }

  /** The middle loop of applyChanges: every unit of one xliff file. */
  method ApplyToXliffFile(file: XliffFile, changes: seq<UnitChange>, reverse: bool) returns (updated: XliffFile)
    ensures updated == AppliedXliffFile(file, changes, reverse)
  {
    var units := file.units;
    for ui := 0 to |units|
      invariant |units| == |file.units|
      invariant forall j :: 0 <= j < ui ==> units[j] == AppliedXliffUnit(file.units[j], changes, reverse)
      invariant forall j :: ui <= j < |units| ==> units[j] == file.units[j]
    {
      var unit := ApplyToXliffUnit(units[ui], changes, reverse);
      units := units[ui := unit];
    }
    updated := file.(units := units);
  }

  /** The outer loop of applyChanges, over the copied xliffData's files. */
  method ApplyToDocument(doc: XliffDocument, changes: seq<UnitChange>, reverse: bool) returns (updated: XliffDocument)
    ensures updated == AppliedDocument(doc, changes, reverse)
  {
    var files := doc.files;
    for fi := 0 to |files|
      invariant |files| == |doc.files|
      invariant forall j :: 0 <= j < fi ==> files[j] == AppliedXliffFile(doc.files[j], changes, reverse)
      invariant forall j :: fi <= j < |files| ==> files[j] == doc.files[j]
    {
      var file := ApplyToXliffFile(files[fi], changes, reverse);
      files := files[fi := file];
    }
    updated := doc.(files := files);
  }

  /** applyChanges: nothing for a file that is not cached; otherwise the
      cache entry gets the applied units and the applied xliff copy. */
  method ApplyChanges(ws: WorkspaceStore.Workspace, filePath: string, changes: seq<UnitChange>, reverse: bool)
    requires ws.Valid()
    modifies ws
    ensures ws.Valid()
    ensures old(ws.GetFileData(filePath)).None? ==> ws.fileCache == old(ws.fileCache)
    ensures old(ws.GetFileData(filePath)).Some? ==>
      ws.fileCache == Put(old(ws.fileCache), filePath, AppliedFileData(old(ws.GetFileData(filePath)).value, changes, reverse))
    ensures ws.projectRoot == old(ws.projectRoot) && ws.groups == old(ws.groups) && ws.viewMode == old(ws.viewMode)
    ensures ws.activeGroupId == old(ws.activeGroupId) && ws.activeLanguage == old(ws.activeLanguage)
    ensures ws.loadedGroups == old(ws.loadedGroups) && ws.isScanning == old(ws.isScanning) && ws.scanError == old(ws.scanError)
  {
    var fileData := ws.GetFileData(filePath);
    if fileData.None? {
      return;
    }
    var fd := fileData.value;
    var units := ApplyToUnits(fd.units, changes, reverse);
    var doc := ApplyToDocument(fd.xliffData, changes, reverse);
    ws.CacheFileData(filePath, fd.(units := units, xliffData := doc));
  }

  /** The flattening loop of commitChanges. */
  method FlattenChanges(fc: EditorStore.FileChanges) returns (all: seq<UnitChange>)
    ensures all == Flatten(fc)
  {
    all := [];
    for i := 0 to |fc|
      invariant all == Flatten(fc[..i])
    {
      assert fc[..i + 1][..i] == fc[..i];
      all := all + fc[i].1;
    }
    assert fc[..|fc|] == fc;
  }

  /** commitChanges: with pending changes for the file, push them all as one
      entry (which pushEntry ignores when every unit entry is empty) and
      drop the file's pending changes; without, change nothing. */
  method CommitChanges(ed: EditorStore.Editor, hist: HistoryStore.History, filePath: string, entryId: string, now: int)
    requires ed.Valid() && hist.Valid()
    modifies ed, hist
    ensures ed.Valid() && hist.Valid()
    ensures filePath !in Keys(old(ed.dirtyUnits)) ==>
      ed.dirtyUnits == old(ed.dirtyUnits) && hist.fileHistory == old(hist.fileHistory)
    ensures filePath in Keys(old(ed.dirtyUnits)) ==>
      ed.dirtyUnits == EditorStore.Cleared(old(ed.dirtyUnits), filePath, None)
    ensures filePath in Keys(old(ed.dirtyUnits)) && Flatten(GetOr(old(ed.dirtyUnits), filePath, [])) != [] ==>
      hist.fileHistory == HistoryStore.Pushed(old(hist.fileHistory), filePath,
        HistoryEntry(entryId, filePath, Flatten(GetOr(old(ed.dirtyUnits), filePath, [])), now))
    ensures Flatten(GetOr(old(ed.dirtyUnits), filePath, [])) == [] ==> hist.fileHistory == old(hist.fileHistory)
    ensures ed.focusedUnitId == old(ed.focusedUnitId) && ed.focusedField == old(ed.focusedField) && ed.sortMode == old(ed.sortMode)
    ensures ed.searchQuery == old(ed.searchQuery) && ed.showOnlyMissing == old(ed.showOnlyMissing)
    ensures ed.editingUnitId == old(ed.editingUnitId) && ed.editingField == old(ed.editingField)
  {
    var dirtyChanges := ed.GetChangesForFile(filePath);
    if |dirtyChanges| == 0 {
      return;
    }
    var allChanges := FlattenChanges(dirtyChanges);
    hist.PushEntry(filePath, allChanges, entryId, now);
    ed.ClearChanges(filePath, None);
  }

  /** The re-tracking loop of performUndo and performRedo. */
  method TrackChanges(ed: EditorStore.Editor, filePath: string, cs: seq<UnitChange>)
    requires ed.Valid()
    modifies ed
    ensures ed.Valid()
    ensures ed.dirtyUnits == TrackAll(old(ed.dirtyUnits), filePath, cs)
    ensures ed.focusedUnitId == old(ed.focusedUnitId) && ed.focusedField == old(ed.focusedField) && ed.sortMode == old(ed.sortMode)
    ensures ed.searchQuery == old(ed.searchQuery) && ed.showOnlyMissing == old(ed.showOnlyMissing)
    ensures ed.editingUnitId == old(ed.editingUnitId) && ed.editingField == old(ed.editingField)
  {
    for i := 0 to |cs|
      invariant ed.Valid()
      invariant ed.dirtyUnits == TrackAll(old(ed.dirtyUnits), filePath, cs[..i])
      invariant ed.focusedUnitId == old(ed.focusedUnitId) && ed.focusedField == old(ed.focusedField) && ed.sortMode == old(ed.sortMode)
      invariant ed.searchQuery == old(ed.searchQuery) && ed.showOnlyMissing == old(ed.showOnlyMissing)
      invariant ed.editingUnitId == old(ed.editingUnitId) && ed.editingField == old(ed.editingField)
    {
      assert cs[..i + 1][..i] == cs[..i];
      ed.TrackChange(filePath, cs[i]);
    }
    assert cs[..|cs|] == cs;
  }

  /** The guard and the stack move of performUndo (performRedo): with
      nothing to undo (redo) the stacks stay and there is no entry; otherwise
      the top entry moves to the other stack and comes back. */
  method TakeEntry(hist: HistoryStore.History, filePath: string, reverse: bool) returns (entry: Option<HistoryEntry>)
    requires hist.Valid()
    modifies hist
    ensures hist.Valid()
    ensures entry == if reverse then HistoryStore.UndoTop(old(hist.fileHistory), filePath)
                     else HistoryStore.RedoTop(old(hist.fileHistory), filePath)
    ensures hist.fileHistory == if reverse then HistoryStore.Undone(old(hist.fileHistory), filePath)
                                else HistoryStore.Redone(old(hist.fileHistory), filePath)
  {
    var possible := if reverse then HistoryStore.CanUndo(hist.fileHistory, filePath) else HistoryStore.CanRedo(hist.fileHistory, filePath);
    if !possible {
      HistoryStore.StackSizes(hist.fileHistory, filePath);
      return None;
    }
    if reverse {
      entry := hist.Undo(filePath);
    } else {
      entry := hist.Redo(filePath);
    }
  }

  /** performUndo (reverse) and performRedo (forward): without an entry to
      move nothing happens; otherwise the entry moves between the stacks,
      its changes are applied to the cached file, re-tracked as pending,
      and an info toast titled "Undo" or "Redo" is posted for two seconds.
      The clock reading and the toast's id are parameters. */
  method PerformStep(hist: HistoryStore.History, ws: WorkspaceStore.Workspace, ed: EditorStore.Editor, ui: UiStore.Ui,
                     filePath: string, reverse: bool, now: int, noticeId: string)
    requires hist.Valid() && ws.Valid() && ed.Valid()
    modifies hist, ws, ed, ui
    ensures hist.Valid() && ws.Valid() && ed.Valid()
    ensures !reverse ==> hist.fileHistory == HistoryStore.Redone(old(hist.fileHistory), filePath)
    ensures reverse ==> hist.fileHistory == HistoryStore.Undone(old(hist.fileHistory), filePath)
    ensures var top := if reverse then HistoryStore.UndoTop(old(hist.fileHistory), filePath)
                       else HistoryStore.RedoTop(old(hist.fileHistory), filePath);
      && (top.None? ==> ws.fileCache == old(ws.fileCache) && ed.dirtyUnits == old(ed.dirtyUnits) && ui.notifications == old(ui.notifications))
      && (top.Some? && old(ws.GetFileData(filePath)).Some? ==>
            ws.fileCache == Put(old(ws.fileCache), filePath, AppliedFileData(old(ws.GetFileData(filePath)).value, top.value.changes, reverse)))
      && (top.Some? && old(ws.GetFileData(filePath)).None? ==> ws.fileCache == old(ws.fileCache))
      && (top.Some? ==> ed.dirtyUnits == TrackAll(old(ed.dirtyUnits), filePath, Retracked(top.value.changes, reverse, now)))
      && (top.Some? ==> ui.notifications == old(ui.notifications) +
                          [UiStore.Notification(noticeId, UiStore.NotificationContent(UiStore.Info, if reverse then "Undo" else "Redo", None, Some(2000)))])
    ensures ws.projectRoot == old(ws.projectRoot) && ws.groups == old(ws.groups) && ws.loadedGroups == old(ws.loadedGroups)
    ensures ws.activeGroupId == old(ws.activeGroupId) && ws.activeLanguage == old(ws.activeLanguage)
    ensures ui.activeDialog == old(ui.activeDialog) && ui.settings == old(ui.settings) && ui.isLoading == old(ui.isLoading)
  {
    var entry := TakeEntry(hist, filePath, reverse);
    if entry.None? {
      return;
    }
    ApplyChanges(ws, filePath, entry.value.changes, reverse);
    TrackChanges(ed, filePath, Retracked(entry.value.changes, reverse, now));
    ui.AddNotification(noticeId, UiStore.NotificationContent(UiStore.Info, if reverse then "Undo" else "Redo", None, Some(2000)));
  }
}
