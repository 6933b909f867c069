// The editor store of the React front end (frontend/src/stores/editor.ts):
// the dirty-change tracker, a two-level JavaScript Map from file path to unit
// id to the list of pending field edits, plus focus, editing and filter state.

module EditorStore {
  import opened Common
  import opened Types

  /** Map<unitId, UnitChange[]> for one file, in insertion order. */
  type FileChanges = seq<(string, seq<UnitChange>)>

  /** Map<filePath, FileChanges>, in insertion order. */
  type DirtyUnits = seq<(string, FileChanges)>

  datatype Direction = Up | Down

  // ---------------------------------------------------------------------
  // Specification of the dirty map
  // ---------------------------------------------------------------------

  /** `unitChanges.findIndex(c => c.field === f)` */
  function FieldIndex(uc: seq<UnitChange>, f: Field): (r: int)
    ensures -1 <= r < |uc|
    ensures r == -1 <==> forall i :: 0 <= i < |uc| ==> uc[i].field != f
    ensures r >= 0 ==> uc[r].field == f && forall i :: 0 <= i < r ==> uc[i].field != f
  {
    if uc == [] then -1
    else if uc[0].field == f then 0
    else var r := FieldIndex(uc[1..], f); if r == -1 then -1 else r + 1
  }

  /** The pending change of field `f` in one unit's list, if any. */
  function FieldEntry(uc: seq<UnitChange>, f: Field): Option<UnitChange> {
    var i := FieldIndex(uc, f);
    if i == -1 then None else Some(uc[i])
  }

  /** What trackChange does to one unit's change list. */
  function TrackUnit(uc: seq<UnitChange>, c: UnitChange): seq<UnitChange> {
    var i := FieldIndex(uc, c.field);
    if i == -1 then (if c.oldValue != c.newValue then uc + [c] else uc)
    else if c.newValue == uc[i].oldValue then uc[..i] + uc[i + 1..]
    else uc[i := c.(oldValue := uc[i].oldValue)]
  }

  /** What trackChange does to one file's map: a unit entry is created if
      missing, and one emptied by a revert is removed. */
  function TrackFile(fc: FileChanges, c: UnitChange): (r: FileChanges)
    requires UniqueKeys(fc) && forall e :: e in fc ==> ChangesWellFormed(e.0, e.1)
    ensures UniqueKeys(r) && forall e :: e in r ==> ChangesWellFormed(e.0, e.1)
  {
    var uc := GetOr(fc, c.unitId, []);
    assert ChangesWellFormed(c.unitId, uc);
    TrackUnitWellFormed(uc, c);
    var uc' := TrackUnit(uc, c);
    if uc != [] && uc' == [] then Delete(fc, c.unitId)
    else PutUnique(fc, c.unitId, uc'); Put(fc, c.unitId, uc')
  }

  /** trackChange on the whole map: the file entry is created if missing, and
      one emptied by a revert is removed. The store's invariant is kept. */
  function Tracked(dirty: DirtyUnits, filePath: string, c: UnitChange): (r: DirtyUnits)
    requires WellFormed(dirty)
    ensures WellFormed(r)
  {
    var fc' := TrackFile(GetOr(dirty, filePath, []), c);
    if fc' == [] then Delete(dirty, filePath)
    else PutUnique(dirty, filePath, fc'); Put(dirty, filePath, fc')
  }

  /** clearChanges(filePath, unitId?): a truthy unit id removes that unit only.
      The store's invariant is kept. */
  function Cleared(dirty: DirtyUnits, filePath: string, unitId: Option<string>): (r: DirtyUnits)
    requires WellFormed(dirty)
    ensures WellFormed(r)
  {
    if IsSet(unitId) then
      match Get(dirty, filePath)
      case None => dirty
      case Some(fc) =>
        var fc' := Delete(fc, unitId.value);
        if fc' == [] then Delete(dirty, filePath)
        else PutUnique(dirty, filePath, fc'); Put(dirty, filePath, fc')
    else Delete(dirty, filePath)
  }

  /** hasUnsavedChanges(filePath?) */
  predicate HasUnsavedChanges(dirty: DirtyUnits, filePath: Option<string>) {
    if IsSet(filePath) then
      match Get(dirty, filePath.value)
      case Some(fc) => |fc| > 0
      case None => false
    else |dirty| > 0
  }

  /** selectIsUnitDirty */
  predicate IsUnitDirty(dirty: DirtyUnits, filePath: string, unitId: string) {
    match Get(dirty, filePath)
    case Some(fc) => unitId in Keys(fc)
    case None => false
  }

  /** The number of unit entries over all files. */
  function DirtyCount(dirty: DirtyUnits): nat {
    if dirty == [] then 0 else DirtyCount(dirty[..|dirty| - 1]) + |dirty[|dirty| - 1].1|
  }

  /** The pending change of one field of one unit of one file, if any. */
  function FieldChange(dirty: DirtyUnits, filePath: string, unitId: string, f: Field): Option<UnitChange> {
    FieldEntry(GetOr(GetOr(dirty, filePath, []), unitId, []), f)
  }

  /** The per-field rule of trackChange: a first edit is kept unless it changes
      nothing; a later edit keeps the first oldValue, and one that returns to it
      cancels the change. */
  function TrackedField(prev: Option<UnitChange>, c: UnitChange): Option<UnitChange> {
    match prev
    case None => if c.oldValue != c.newValue then Some(c) else None
    case Some(e) => if c.newValue == e.oldValue then None else Some(c.(oldValue := e.oldValue))
  }

  // ---------------------------------------------------------------------
  // The invariant the store keeps
  // ---------------------------------------------------------------------

  ghost predicate DistinctFields(uc: seq<UnitChange>) {
    forall i, j :: 0 <= i < j < |uc| ==> uc[i].field != uc[j].field
  }

  /** At most one change per field, each belonging to its unit and changing something. */
  ghost predicate ChangesWellFormed(unitId: string, uc: seq<UnitChange>) {
    && DistinctFields(uc)
    && forall x :: x in uc ==> x.unitId == unitId && x.oldValue != x.newValue
  }

  /** A file entry is never empty; its unit keys are unique. */
  ghost predicate FileWellFormed(fc: FileChanges) {
    && fc != []
    && UniqueKeys(fc)
    && forall e :: e in fc ==> ChangesWellFormed(e.0, e.1)
  }

  ghost predicate WellFormed(dirty: DirtyUnits) {
    && UniqueKeys(dirty)
    && forall e :: e in dirty ==> FileWellFormed(e.1)
  }

  // ---------------------------------------------------------------------
  // Lemmas
  // ---------------------------------------------------------------------

  /** With distinct fields, the entry for `f` is the one element whose field is `f`. */
  lemma FieldEntryMember(uc: seq<UnitChange>, f: Field)
    requires DistinctFields(uc)
    ensures FieldEntry(uc, f).None? <==> forall x :: x in uc ==> x.field != f
    ensures forall x :: x in uc && x.field == f ==> FieldEntry(uc, f) == Some(x)
  {
    forall x | x in uc && x.field == f ensures FieldEntry(uc, f) == Some(x) {
      var k :| 0 <= k < |uc| && uc[k] == x;
      var i := FieldIndex(uc, f);
      assert i != -1;
      assert i == k;
    }
  }

  /** Appending a change for a field not yet in the list. */
  lemma AppendFieldView(uc: seq<UnitChange>, c: UnitChange, f: Field)
    requires DistinctFields(uc)
    requires forall x :: x in uc ==> x.field != c.field
    ensures DistinctFields(uc + [c])
    ensures FieldEntry(uc + [c], f) == if f == c.field then Some(c) else FieldEntry(uc, f)
  {
    var r := uc + [c];
    assert DistinctFields(r) by {
      forall a, b | 0 <= a < b < |r| ensures r[a].field != r[b].field {
        if b == |uc| { assert uc[a] in uc; }
      }
    }
    FieldEntryMember(uc, f);
    FieldEntryMember(r, f);
    assert c in r;
  }

  /** Splicing out the change at index `i`. */
  lemma RemoveFieldView(uc: seq<UnitChange>, i: int, f: Field)
    requires DistinctFields(uc) && 0 <= i < |uc|
    ensures DistinctFields(uc[..i] + uc[i + 1..])
    ensures FieldEntry(uc[..i] + uc[i + 1..], f) == if f == uc[i].field then None else FieldEntry(uc, f)
  {
    var r := uc[..i] + uc[i + 1..];
    RemoveFieldDistinct(uc, i);
    FieldEntryMember(uc, f);
    FieldEntryMember(r, f);
    if f != uc[i].field && FieldEntry(uc, f).Some? {
      var x := FieldEntry(uc, f).value;
      var k := FieldIndex(uc, f);
      assert k != i;
      assert x in r by {
        if k < i { assert r[k] == x; } else { assert r[k - 1] == x; }
      }
    }
  }

  /** Removing one change keeps the fields distinct. */
  lemma RemoveFieldDistinct(uc: seq<UnitChange>, i: int)
    requires DistinctFields(uc) && 0 <= i < |uc|
    ensures DistinctFields(uc[..i] + uc[i + 1..])
  {
    var r := uc[..i] + uc[i + 1..];
    assert forall k :: 0 <= k < |r| ==> r[k] == uc[if k < i then k else k + 1];
  }

  /** Overwriting the change at index `i` with one for the same field. */
  lemma ReplaceFieldView(uc: seq<UnitChange>, i: int, n: UnitChange, f: Field)
    requires DistinctFields(uc) && 0 <= i < |uc| && n.field == uc[i].field
    ensures DistinctFields(uc[i := n])
    ensures FieldEntry(uc[i := n], f) == if f == n.field then Some(n) else FieldEntry(uc, f)
  {
    var r := uc[i := n];
    assert forall k :: 0 <= k < |r| ==> r[k].field == uc[k].field;
    assert DistinctFields(r);
    FieldEntryMember(uc, f);
    FieldEntryMember(r, f);
    assert r[i] == n;
    if f != n.field && FieldEntry(uc, f).Some? {
      var k := FieldIndex(uc, f);
      assert k != i && r[k] == uc[k];
    }
  }

  /** trackChange changes only the entry of the edited field, by TrackedField. */
  lemma TrackUnitView(uc: seq<UnitChange>, c: UnitChange, f: Field)
    requires DistinctFields(uc)
    ensures DistinctFields(TrackUnit(uc, c))
    ensures FieldEntry(TrackUnit(uc, c), f)
      == if f == c.field then TrackedField(FieldEntry(uc, c.field), c) else FieldEntry(uc, f)
  {
    var i := FieldIndex(uc, c.field);
    if i == -1 {
      FieldEntryMember(uc, c.field);
      if c.oldValue != c.newValue {
        AppendFieldView(uc, c, f);
      }
    } else if c.newValue == uc[i].oldValue {
      RemoveFieldView(uc, i, f);
    } else {
      ReplaceFieldView(uc, i, c.(oldValue := uc[i].oldValue), f);
    }
  }

  lemma TrackUnitWellFormed(uc: seq<UnitChange>, c: UnitChange)
    requires ChangesWellFormed(c.unitId, uc)
    ensures ChangesWellFormed(c.unitId, TrackUnit(uc, c))
  {
    TrackUnitView(uc, c, c.field);
    var i := FieldIndex(uc, c.field);
    if i != -1 && c.newValue == uc[i].oldValue {
      var r := uc[..i] + uc[i + 1..];
      assert forall x :: x in r ==> x in uc;
    } else if i != -1 {
      var n := c.(oldValue := uc[i].oldValue);
      assert forall x :: x in uc[i := n] ==> x in uc || x == n;
    }
  }

  /** The whole effect of trackChange, field by field: the edited field follows
      TrackedField and every other (file, unit, field) keeps its change. */
  lemma TrackChangeView(dirty: DirtyUnits, filePath: string, c: UnitChange, p: string, u: string, f: Field)
    requires WellFormed(dirty)
    ensures FieldChange(Tracked(dirty, filePath, c), p, u, f)
      == if p == filePath && u == c.unitId && f == c.field then TrackedField(FieldChange(dirty, filePath, c.unitId, c.field), c)
         else FieldChange(dirty, p, u, f)
  {
    var fc := GetOr(dirty, filePath, []);
    var fc' := TrackFile(fc, c);
    GetOrTracked(dirty, filePath, c, p);
    if p == filePath {
      TrackFileView(fc, c, u);
      if u == c.unitId {
        assert ChangesWellFormed(c.unitId, GetOr(fc, c.unitId, []));
        TrackUnitView(GetOr(fc, c.unitId, []), c, f);
      }
    }
  }

  lemma GetOrTracked(dirty: DirtyUnits, filePath: string, c: UnitChange, p: string)
    requires WellFormed(dirty)
    ensures GetOr(Tracked(dirty, filePath, c), p, []) == if p == filePath then TrackFile(GetOr(dirty, filePath, []), c) else GetOr(dirty, p, [])
  {
  }

  lemma TrackFileView(fc: FileChanges, c: UnitChange, u: string)
    requires UniqueKeys(fc) && forall e :: e in fc ==> ChangesWellFormed(e.0, e.1)
    ensures GetOr(TrackFile(fc, c), u, []) == if u == c.unitId then TrackUnit(GetOr(fc, c.unitId, []), c) else GetOr(fc, u, [])
  {
  }

  /** clearChanges drops the pending changes of that unit (or, without a unit
      id, of the whole file) and of nothing else. */
  lemma ClearChangesView(dirty: DirtyUnits, filePath: string, unitId: Option<string>, p: string, u: string, f: Field)
    requires WellFormed(dirty)
    ensures FieldChange(Cleared(dirty, filePath, unitId), p, u, f)
      == if p == filePath && (!IsSet(unitId) || u == unitId.value) then None else FieldChange(dirty, p, u, f)
  {
    if IsSet(unitId) && Get(dirty, filePath).Some? {
      var fc := Get(dirty, filePath).value;
      var fc' := Delete(fc, unitId.value);
      if fc' == [] && p == filePath && u != unitId.value {
        assert Get(fc', u) == Get(fc, u);
      }
    }
  }

  /** A revert cancels: an edit followed by one back to the original value
      leaves no pending change for that field. */
  lemma EditThenRevert(dirty: DirtyUnits, filePath: string, c1: UnitChange, c2: UnitChange)
    requires WellFormed(dirty)
    requires FieldChange(dirty, filePath, c1.unitId, c1.field).None?
    requires c1.oldValue != c1.newValue
    requires c2.unitId == c1.unitId && c2.field == c1.field && c2.newValue == c1.oldValue
    ensures FieldChange(Tracked(dirty, filePath, c1), filePath, c1.unitId, c1.field) == Some(c1)
    ensures FieldChange(Tracked(Tracked(dirty, filePath, c1), filePath, c2), filePath, c1.unitId, c1.field).None?
  {
    TrackChangeView(dirty, filePath, c1, filePath, c1.unitId, c1.field);
    TrackChangeView(Tracked(dirty, filePath, c1), filePath, c2, filePath, c1.unitId, c1.field);
  }

  /** A repeated edit keeps the first oldValue and the latest newValue. */
  lemma RepeatedEditKeepsFirstOldValue(dirty: DirtyUnits, filePath: string, c1: UnitChange, c2: UnitChange)
    requires WellFormed(dirty)
    requires FieldChange(dirty, filePath, c1.unitId, c1.field).None?
    requires c1.oldValue != c1.newValue
    requires c2.unitId == c1.unitId && c2.field == c1.field && c2.newValue != c1.oldValue
    ensures FieldChange(Tracked(Tracked(dirty, filePath, c1), filePath, c2), filePath, c1.unitId, c1.field)
      == Some(c2.(oldValue := c1.oldValue))
  {
    TrackChangeView(dirty, filePath, c1, filePath, c1.unitId, c1.field);
    TrackChangeView(Tracked(dirty, filePath, c1), filePath, c2, filePath, c1.unitId, c1.field);
  }

  /** An edit that changes nothing records no change, yet still creates the
      file and unit entries, so the file reads as having unsaved changes. */
  lemma NoOpEditMarksFileDirty(dirty: DirtyUnits, filePath: string, c: UnitChange)
    requires WellFormed(dirty)
    requires FieldChange(dirty, filePath, c.unitId, c.field).None?
    requires c.oldValue == c.newValue && filePath != ""
    ensures FieldChange(Tracked(dirty, filePath, c), filePath, c.unitId, c.field).None?
    ensures HasUnsavedChanges(Tracked(dirty, filePath, c), Some(filePath))
    ensures IsUnitDirty(Tracked(dirty, filePath, c), filePath, c.unitId)
  {
    TrackChangeView(dirty, filePath, c, filePath, c.unitId, c.field);
    var fc := GetOr(dirty, filePath, []);
    var uc := GetOr(fc, c.unitId, []);
    assert DistinctFields(uc);
    TrackUnitView(uc, c, c.field);
    FieldEntryMember(uc, c.field);
    assert TrackUnit(uc, c) == uc;
  }

  /** With the invariant, a file has unsaved changes exactly when it has an entry. */
  lemma HasUnsavedChangesIffEntry(dirty: DirtyUnits, filePath: string)
    requires WellFormed(dirty) && filePath != ""
    ensures HasUnsavedChanges(dirty, Some(filePath)) <==> filePath in Keys(dirty)
  {
    if filePath in Keys(dirty) {
      assert (filePath, Get(dirty, filePath).value) in dirty;
    }
  }

  /** The dirty count is the total of the files' unit entries; with the
      invariant it is positive exactly when some file has unsaved changes. */
  lemma {:induction false} DirtyCountPositive(dirty: DirtyUnits)
    requires forall e :: e in dirty ==> e.1 != []
    ensures DirtyCount(dirty) >= |dirty|
    ensures HasUnsavedChanges(dirty, None) <==> DirtyCount(dirty) > 0
  {
    if dirty != [] {
      var init := dirty[..|dirty| - 1];
      assert forall e :: e in init ==> e in dirty;
      DirtyCountPositive(init);
      assert dirty[|dirty| - 1] in dirty;
    }
  }

  // ---------------------------------------------------------------------
  // Focus and filtering
  // ---------------------------------------------------------------------

  /** The index moveFocus steps to from `current`, clamped to the list. */
  function StepFocus(current: nat, direction: Direction, count: nat): (r: nat)
    requires current < count
    ensures r < count
    ensures direction == Up ==> r <= current && (r == current <==> current == 0)
    ensures direction == Down ==> r >= current && (r == current <==> current == count - 1)
    ensures r - current <= 1 && current - r <= 1
  {
    if direction == Up then (if current == 0 then 0 else current - 1)
    else if current + 1 < count then current + 1 else count - 1
  }

  /** The text test of selectFilteredUnits for a lowered query. */
  predicate MatchesQuery(u: TranslationUnit, query: string) {
    || Contains(Lower(u.id), query)
    || Contains(Lower(u.source), query)
    || (u.target != "" && Contains(Lower(u.target), query))
  }

  /** `!u.target || u.target.trim() === ''` */
  predicate IsMissing(u: TranslationUnit) {
    IsBlank(u.target)
  }

  /** Whether selectFilteredUnits keeps a unit. */
  predicate KeptByFilter(u: TranslationUnit, searchQuery: string, showOnlyMissing: bool) {
    && (showOnlyMissing ==> IsMissing(u))
    && (!IsBlank(searchQuery) ==> MatchesQuery(u, Lower(searchQuery)))
  }

  /** selectFilteredUnits: the missing-only filter, then the text filter for a non-blank query. */
  function SelectFilteredUnits(units: seq<TranslationUnit>, searchQuery: string, showOnlyMissing: bool): (r: seq<TranslationUnit>)
    ensures Subsequence(r, units)
    ensures forall u :: u in r <==> u in units && KeptByFilter(u, searchQuery, showOnlyMissing)
    ensures !showOnlyMissing && IsBlank(searchQuery) ==> r == units
  {
    var missing := if showOnlyMissing then Filter(units, IsMissing) else units;
    SubsequenceReflexive(units);
    assert forall u :: u in missing <==> u in units && (showOnlyMissing ==> IsMissing(u));
    TrimEmptyIffBlank(searchQuery);
    if Trim(searchQuery) != "" then
      var query := Lower(searchQuery);
      var r := Filter(missing, (u: TranslationUnit) => MatchesQuery(u, query));
      SubsequenceTransitive(r, missing, units);
      r
    else missing
  }

  // ---------------------------------------------------------------------
  // The store
  // ---------------------------------------------------------------------

  class Editor {
    var dirtyUnits: DirtyUnits
    var focusedUnitId: Option<string>
    var focusedField: Option<Field>
    var sortMode: SortMode
    var searchQuery: string
    var showOnlyMissing: bool
    var editingUnitId: Option<string>
    var editingField: Option<Field>

    ghost predicate Valid()
      reads this
    {
      WellFormed(dirtyUnits)
    }

    constructor()
      ensures Valid()
      ensures dirtyUnits == [] && focusedUnitId == None && focusedField == None
      ensures sortMode == Manual && searchQuery == "" && !showOnlyMissing
      ensures editingUnitId == None && editingField == None
    {
      dirtyUnits := [];
      focusedUnitId := None;
      focusedField := None;
      sortMode := Manual;
      searchQuery := "";
      showOnlyMissing := false;
      editingUnitId := None;
      editingField := None;
    }

    /** `unitChanges.findIndex(c => c.field === f)` */
    static method FindField(unitChanges: seq<UnitChange>, f: Field) returns (idx: int)
      ensures idx == FieldIndex(unitChanges, f)
    {
      idx := 0;
      while idx < |unitChanges| && unitChanges[idx].field != f
        invariant 0 <= idx <= |unitChanges|
        invariant forall i :: 0 <= i < idx ==> unitChanges[i].field != f
      {
        idx := idx + 1;
      }
      if idx == |unitChanges| {
        idx := -1;
      }
    }

    /** The unit's change list after one edit: a change to a tracked field
        keeps its first old value and is dropped when it reverts, a change to
        an untracked field is appended unless it changes nothing. */
    static method TrackUnitChanges(unitChanges: seq<UnitChange>, change: UnitChange) returns (r: seq<UnitChange>)
      ensures r == TrackUnit(unitChanges, change)
    {
      r := unitChanges;
      var existingIdx := FindField(r, change.field);
      if existingIdx != -1 {
        var existing := r[existingIdx];
        r := r[existingIdx := change.(oldValue := existing.oldValue)];
        if change.newValue == existing.oldValue {
          r := r[..existingIdx] + r[existingIdx + 1..];
        }
      } else if change.oldValue != change.newValue {
        r := r + [change];
      }
    }

    /** The file's map after one edit: the unit's entry is created if
        missing and removed when a revert empties it. */
    static method TrackFileChanges(fileChanges: FileChanges, change: UnitChange) returns (r: FileChanges)
      requires UniqueKeys(fileChanges) && forall e :: e in fileChanges ==> ChangesWellFormed(e.0, e.1)
      ensures r == TrackFile(fileChanges, change)
    {
      var unitChanges := GetOr(fileChanges, change.unitId, []);
      var hadChanges := unitChanges != [];
      unitChanges := TrackUnitChanges(unitChanges, change);
      if hadChanges && unitChanges == [] {
        r := Delete(fileChanges, change.unitId);
      } else {
        r := Put(fileChanges, change.unitId, unitChanges);
      }
    }

    method TrackChange(filePath: string, change: UnitChange)
      requires Valid()
      modifies this
      ensures Valid()
      ensures dirtyUnits == Tracked(old(dirtyUnits), filePath, change)
      ensures focusedUnitId == old(focusedUnitId) && focusedField == old(focusedField)
      ensures sortMode == old(sortMode) && searchQuery == old(searchQuery) && showOnlyMissing == old(showOnlyMissing)
      ensures editingUnitId == old(editingUnitId) && editingField == old(editingField)
    {
      dirtyUnits := TrackDirty(dirtyUnits, filePath, change);
    }

    /** The whole dirty map after one edit: the file's entry is created if
        missing and removed when a revert empties it. */
    static method TrackDirty(dirty: DirtyUnits, filePath: string, change: UnitChange) returns (r: DirtyUnits)
      requires WellFormed(dirty)
      ensures r == Tracked(dirty, filePath, change)
    {
      var fileChanges := GetOr(dirty, filePath, []);
      assert fileChanges == [] || FileWellFormed(fileChanges);
      fileChanges := TrackFileChanges(fileChanges, change);
      if fileChanges == [] {
        r := Delete(dirty, filePath);
      } else {
        r := Put(dirty, filePath, fileChanges);
      }
    }

    method ClearChanges(filePath: string, unitId: Option<string>)
      requires Valid()
      modifies this
      ensures Valid()
      ensures dirtyUnits == Cleared(old(dirtyUnits), filePath, unitId)
      ensures focusedUnitId == old(focusedUnitId) && focusedField == old(focusedField)
      ensures sortMode == old(sortMode) && searchQuery == old(searchQuery) && showOnlyMissing == old(showOnlyMissing)
      ensures editingUnitId == old(editingUnitId) && editingField == old(editingField)
    {
      if IsSet(unitId) {
        var fileChanges := Get(dirtyUnits, filePath);
        if fileChanges.Some? {
          var remaining := Delete(fileChanges.value, unitId.value);
          if remaining == [] {
            dirtyUnits := Delete(dirtyUnits, filePath);
          } else {
            dirtyUnits := Put(dirtyUnits, filePath, remaining);
          }
        }
      } else {
        dirtyUnits := Delete(dirtyUnits, filePath);
      }
    }

    method ClearAllChanges()
      modifies this
      ensures Valid() && dirtyUnits == []
      ensures focusedUnitId == old(focusedUnitId) && focusedField == old(focusedField)
      ensures sortMode == old(sortMode) && searchQuery == old(searchQuery) && showOnlyMissing == old(showOnlyMissing)
      ensures editingUnitId == old(editingUnitId) && editingField == old(editingField)
    {
      dirtyUnits := [];
    }

    /** getDirtyPaths: the files with an entry, in insertion order. */
    function GetDirtyPaths(): (r: seq<string>)
      reads this
      requires Valid()
      ensures Distinct(r)
      ensures forall p :: p in r <==> p in Keys(dirtyUnits)
    {
      Keys(dirtyUnits)
    }

    /** getChangesForFile: the file's entry, or an empty map. */
    function GetChangesForFile(filePath: string): (r: FileChanges)
      reads this
      requires Valid()
      ensures UniqueKeys(r)
      ensures forall e :: e in r ==> ChangesWellFormed(e.0, e.1)
      ensures r == [] <==> filePath !in Keys(dirtyUnits)
    {
      var r := GetOr(dirtyUnits, filePath, []);
      assert filePath in Keys(dirtyUnits) ==> FileWellFormed(r);
      r
    }

    /** selectDirtyCount: the unit entries summed over the files. */
    method SelectDirtyCount() returns (count: nat)
      ensures count == DirtyCount(dirtyUnits)
    {
      count := 0;
      var i := 0;
      while i < |dirtyUnits|
        invariant 0 <= i <= |dirtyUnits|
        invariant count == DirtyCount(dirtyUnits[..i])
      {
        assert dirtyUnits[..i + 1][..i] == dirtyUnits[..i];
        count := count + |dirtyUnits[i].1|;
        i := i + 1;
      }
      assert dirtyUnits[..i] == dirtyUnits;
    }

    method SetFocusedUnit(unitId: Option<string>, field: Option<Field>)
      modifies this
      ensures focusedUnitId == unitId && focusedField == field
      ensures dirtyUnits == old(dirtyUnits)
      ensures sortMode == old(sortMode) && searchQuery == old(searchQuery) && showOnlyMissing == old(showOnlyMissing)
      ensures editingUnitId == old(editingUnitId) && editingField == old(editingField)
    {
      focusedUnitId := unitId;
      focusedField := field;
    }

    /** moveFocus: nothing focused focuses the first unit's target; an unknown
        focused id jumps to the first unit; otherwise one step, clamped. */
    /** `units.findIndex(u => u.id === id)`: the first position of the id,
        -1 when no unit has it. */
    static method FindUnit(units: seq<TranslationUnit>, id: string) returns (idx: int)
      ensures idx == IndexOf(Ids(units), id)
    {
      idx := 0;
      while idx < |units| && units[idx].id != id
        invariant 0 <= idx <= |units|
        invariant forall i :: 0 <= i < idx ==> units[i].id != id
      {
        idx := idx + 1;
      }
      if idx == |units| {
        assert id !in Ids(units);
        idx := -1;
      } else {
        IndexOfFirst(Ids(units), id, idx);
      }
    }

    method MoveFocus(direction: Direction, units: seq<TranslationUnit>)
      modifies this
      ensures !IsSet(old(focusedUnitId)) || units == [] ==>
        if units == [] then focusedUnitId == old(focusedUnitId) && focusedField == old(focusedField)
        else focusedUnitId == Some(units[0].id) && focusedField == Some(Target)
      ensures IsSet(old(focusedUnitId)) && units != [] ==>
        var ids := Ids(units);
        var current := IndexOf(ids, old(focusedUnitId).value);
        && focusedField == old(focusedField)
        && focusedUnitId == Some(if current == -1 then units[0].id else units[StepFocus(current, direction, |units|)].id)
      ensures dirtyUnits == old(dirtyUnits)
      ensures sortMode == old(sortMode) && searchQuery == old(searchQuery) && showOnlyMissing == old(showOnlyMissing)
      ensures editingUnitId == old(editingUnitId) && editingField == old(editingField)
    {
      if !IsSet(focusedUnitId) || |units| == 0 {
        if |units| > 0 {
          focusedUnitId := Some(units[0].id);
          focusedField := Some(Target);
        }
        return;
      }
      var currentIndex := FindUnit(units, focusedUnitId.value);
      if currentIndex == -1 {
        focusedUnitId := Some(units[0].id);
        return;
      }
      var newIndex := if direction == Up then (if currentIndex - 1 < 0 then 0 else currentIndex - 1)
        else (if |units| - 1 < currentIndex + 1 then |units| - 1 else currentIndex + 1);
      focusedUnitId := Some(units[newIndex].id);
    }

    method StartEditing(unitId: string, field: Field)
      modifies this
      ensures editingUnitId == Some(unitId) && editingField == Some(field)
      ensures focusedUnitId == Some(unitId) && focusedField == Some(field)
      ensures dirtyUnits == old(dirtyUnits)
      ensures sortMode == old(sortMode) && searchQuery == old(searchQuery) && showOnlyMissing == old(showOnlyMissing)
    {
      editingUnitId := Some(unitId);
      editingField := Some(field);
      focusedUnitId := Some(unitId);
      focusedField := Some(field);
    }

    method StopEditing()
      modifies this
      ensures editingUnitId == None && editingField == None
      ensures focusedUnitId == old(focusedUnitId) && focusedField == old(focusedField)
      ensures dirtyUnits == old(dirtyUnits)
      ensures sortMode == old(sortMode) && searchQuery == old(searchQuery) && showOnlyMissing == old(showOnlyMissing)
    {
      editingUnitId := None;
      editingField := None;
    }
  }
}
