/**
 * The unit table of the older Tauri front end (src/components/TranslationTable.tsx):
 * one unit is edited at a time and saved on its own. The filter, the
 * progress figure and the drag reorder are written out again in that file;
 * here each is stated in the file's own terms and proved equal to the React
 * table's definition.
 */
module LegacyTranslationTable {
  import opened Common
  import opened Types
  import TranslationTable

  /** `isSourceOnly ? [] : [unit.target.toLowerCase()]` */
  function TargetHaystack(u: TranslationUnit, isSourceOnly: bool): seq<string> {
    if isSourceOnly then [] else [Lower(u.target)]
  }

  /** The filter's test, as this file writes it: the target is searched
      through a one-element list unless the file is source-only. */
  predicate Matches(u: TranslationUnit, searchQuery: string, isSourceOnly: bool) {
    if searchQuery == "" then true
    else
      var query := Lower(searchQuery);
      Contains(Lower(u.id), query) || Contains(Lower(u.source), query)
        || exists value :: value in TargetHaystack(u, isSourceOnly) && Contains(value, query)
  }

  /** The one-element list tests the target exactly when the React table does. */
  lemma MatchesAgree(u: TranslationUnit, searchQuery: string, isSourceOnly: bool)
    ensures Matches(u, searchQuery, isSourceOnly) == TranslationTable.Matches(u, searchQuery, isSourceOnly)
  {
    if searchQuery != "" && !isSourceOnly {
      assert Lower(u.target) in TargetHaystack(u, isSourceOnly);
    }
  }

  /** filteredUnits: the same list the React table shows. */
  function FilteredUnits(units: seq<TranslationUnit>, searchQuery: string, isSourceOnly: bool): (r: seq<TranslationUnit>)
    ensures r == TranslationTable.FilteredUnits(units, searchQuery, isSourceOnly)
  {
    var test := (u: TranslationUnit) => Matches(u, searchQuery, isSourceOnly);
    forall u ensures test(u) == TranslationTable.MatchesQuery(searchQuery, isSourceOnly)(u) {
      MatchesAgree(u, searchQuery, isSourceOnly);
    }
    FilterExt(units, test, TranslationTable.MatchesQuery(searchQuery, isSourceOnly));
    Filter(units, test)
  }

  /** translationProgress, as this file writes it. */
  function TranslationProgress(units: seq<TranslationUnit>, isSourceOnly: bool): (r: nat)
    ensures r == TranslationTable.TranslationProgress(units, isSourceOnly)
    ensures r <= 100
  {
    if isSourceOnly || |units| == 0 then 0
    else
      var translatedCount := |Filter(units, (unit: TranslationUnit) => unit.target != "" && Trim(unit.target) != "")|;
      FilterExt(units, (unit: TranslationUnit) => unit.target != "" && Trim(unit.target) != "",
        (u: TranslationUnit) => TranslationTable.Translated(u));
      TranslationTable.RoundedPercent(translatedCount, |units|)
  }

  /** isDirty: the unit `units.find(u => u.id === editingId)` differs from
      the edit values in id or source, or in target outside source-only mode;
      false when no unit is found. */
  function IsDirty(units: seq<TranslationUnit>, editingId: Option<string>, editValues: TranslationUnit, isSourceOnly: bool): (r: bool)
    ensures editingId.None? ==> !r
    ensures r <==>
      && editingId.Some? && FindById(units, editingId.value).Some?
      && var u := FindById(units, editingId.value).value;
        u.id != editValues.id || u.source != editValues.source || (!isSourceOnly && u.target != editValues.target)
  {
    if editingId.None? then false
    else match FindById(units, editingId.value)
      case None => false
      case Some(editingUnit) =>
        editingUnit.id != editValues.id || editingUnit.source != editValues.source
          || (!isSourceOnly && editingUnit.target != editValues.target)
  }

  /** Starting an edit of a unit (the first with its id) leaves the row
      clean, and changing a field to a different value makes it dirty,
      except for the target of a source-only file. */
  lemma EditStartsClean(units: seq<TranslationUnit>, u: TranslationUnit, isSourceOnly: bool, f: Field, v: string)
    requires FindById(units, u.id) == Some(u)
    ensures !IsDirty(units, Some(u.id), u, isSourceOnly)
    ensures v != FieldOf(u, f) && !(isSourceOnly && f == Target) ==>
      IsDirty(units, Some(u.id), WithField(u, f, v), isSourceOnly)
  {
  }

  /** The keys the keydown handler tells apart. */
  datatype Key = Escape | S | Enter | OtherKey

  class Table {
    var editingId: Option<string>
    var editValues: TranslationUnit
    var showAddDialog: bool
    var newKeyId: string
    var newKeySource: string
    var savingId: Option<string>
    var recentlySavedId: Option<string>

    constructor()
      ensures editingId == None && editValues == TranslationUnit("", "", "")
      ensures !showAddDialog && newKeyId == "" && newKeySource == ""
      ensures savingId == None && recentlySavedId == None
    {
      editingId := None;
      editValues := TranslationUnit("", "", "");
      showAddDialog := false;
      newKeyId := "";
      newKeySource := "";
      savingId := None;
      recentlySavedId := None;
    }

    /** handleEdit: the row's values are copied into the edit values. */
    method HandleEdit(unit: TranslationUnit)
      modifies this
      ensures editingId == Some(unit.id) && editValues == unit
      ensures showAddDialog == old(showAddDialog) && newKeyId == old(newKeyId) && newKeySource == old(newKeySource)
      ensures savingId == old(savingId) && recentlySavedId == old(recentlySavedId)
    {
      editingId := Some(unit.id);
      editValues := TranslationUnit(unit.id, unit.source, unit.target);
    }

    /** An input's onChange: `setEditValues({ ...editValues, [field]: value })`. */
    method ChangeEditValue(field: Field, value: string)
      modifies this
      ensures editValues == WithField(old(editValues), field, value)
      ensures FieldOf(editValues, field) == value
      ensures forall g :: g != field ==> FieldOf(editValues, g) == FieldOf(old(editValues), g)
      ensures editingId == old(editingId) && showAddDialog == old(showAddDialog)
      ensures newKeyId == old(newKeyId) && newKeySource == old(newKeySource)
      ensures savingId == old(savingId) && recentlySavedId == old(recentlySavedId)
    {
      editValues := WithField(editValues, field, value);
    }

    /** handleSave: without an editing id (null or empty) nothing happens;
        otherwise onSave gets the editing id and the three edit values, and
        once it resolves the edit ends and the saved row is marked by its
        new id. `rejected` says the callback failed, which leaves the row
        editing and marked as saving. */
    method HandleSave(rejected: bool) returns (call: Option<TranslationTable.SaveCall>)
      modifies this
      ensures call.Some? <==> IsSet(old(editingId))
      ensures call.Some? ==>
        call.value == TranslationTable.SaveCall(old(editingId).value, old(editValues).id, old(editValues).source, old(editValues).target)
      ensures (call.Some? && !rejected) ==>
        editingId == None && savingId == None && recentlySavedId == Some(old(editValues).id)
      ensures (call.Some? && rejected) ==>
        editingId == old(editingId) && savingId == old(editingId) && recentlySavedId == old(recentlySavedId)
      ensures call.None? ==>
        editingId == old(editingId) && savingId == old(savingId) && recentlySavedId == old(recentlySavedId)
      ensures editValues == old(editValues) && showAddDialog == old(showAddDialog)
      ensures newKeyId == old(newKeyId) && newKeySource == old(newKeySource)
    {
      call := None;
      if IsSet(editingId) {
        savingId := editingId;
        call := Some(TranslationTable.SaveCall(editingId.value, editValues.id, editValues.source, editValues.target));
        if rejected {
          return;
        }
        editingId := None;
        savingId := None;
        recentlySavedId := Some(editValues.id);
      }
    }

    /** handleCancel: the edit ends and the edit values are emptied. */
    method HandleCancel()
      modifies this
      ensures editingId == None && editValues == TranslationUnit("", "", "")
      ensures showAddDialog == old(showAddDialog) && newKeyId == old(newKeyId) && newKeySource == old(newKeySource)
      ensures savingId == old(savingId) && recentlySavedId == old(recentlySavedId)
    {
      editingId := None;
      editValues := TranslationUnit("", "", "");
    }

    /** handleAddKey: onAddKey gets the trimmed id and source when neither
        is blank, and the dialog closes and clears; otherwise nothing. */
    method HandleAddKey() returns (call: Option<(string, string)>)
      modifies this
      ensures call.Some? <==> !IsBlank(old(newKeyId)) && !IsBlank(old(newKeySource))
      ensures call.Some? ==>
        && call.value == (Trim(old(newKeyId)), Trim(old(newKeySource)))
        && newKeyId == "" && newKeySource == "" && !showAddDialog
      ensures call.None? ==>
        newKeyId == old(newKeyId) && newKeySource == old(newKeySource) && showAddDialog == old(showAddDialog)
      ensures editingId == old(editingId) && editValues == old(editValues)
      ensures savingId == old(savingId) && recentlySavedId == old(recentlySavedId)
    {
      TrimEmptyIffBlank(newKeyId);
      TrimEmptyIffBlank(newKeySource);
      call := None;
      if Trim(newKeyId) != "" && Trim(newKeySource) != "" {
        call := Some((Trim(newKeyId), Trim(newKeySource)));
        newKeyId := "";
        newKeySource := "";
        showAddDialog := false;
      }
    }

    /** The window's keydown handler: Escape cancels an edit, Ctrl/Cmd+S
        and Ctrl/Cmd+Enter save it, and Escape also closes and clears the
        add dialog. The edit handlers run only while an id is being edited
        (a non-empty editing id). */
    method HandleKeyDown(key: Key, commandKey: bool, rejected: bool) returns (call: Option<TranslationTable.SaveCall>)
      modifies this
      ensures key == Escape && IsSet(old(editingId)) ==>
        editingId == None && editValues == TranslationUnit("", "", "")
      ensures key == Escape && old(showAddDialog) ==> !showAddDialog && newKeyId == "" && newKeySource == ""
      ensures call.Some? <==> IsSet(old(editingId)) && commandKey && (key == S || key == Enter)
      ensures call.Some? ==>
        call.value == TranslationTable.SaveCall(old(editingId).value, old(editValues).id, old(editValues).source, old(editValues).target)
      ensures (call.Some? && !rejected) ==>
        editingId == None && savingId == None && recentlySavedId == Some(old(editValues).id)
      ensures (call.Some? && rejected) ==>
        editingId == old(editingId) && savingId == old(editingId) && recentlySavedId == old(recentlySavedId)
      ensures call.Some? ==>
        editValues == old(editValues) && showAddDialog == old(showAddDialog)
        && newKeyId == old(newKeyId) && newKeySource == old(newKeySource)
      ensures key == Escape ==> savingId == old(savingId) && recentlySavedId == old(recentlySavedId)
      ensures key == Escape && !old(showAddDialog) ==>
        showAddDialog == old(showAddDialog) && newKeyId == old(newKeyId) && newKeySource == old(newKeySource)
      ensures key == Escape && !IsSet(old(editingId)) ==>
        editingId == old(editingId) && editValues == old(editValues)
      ensures key != Escape && call.None? ==>
        editingId == old(editingId) && editValues == old(editValues) && showAddDialog == old(showAddDialog)
        && newKeyId == old(newKeyId) && newKeySource == old(newKeySource)
        && savingId == old(savingId) && recentlySavedId == old(recentlySavedId)
    {
      call := None;
      if IsSet(editingId) && key == Escape {
        HandleCancel();
      }
      if IsSet(editingId) && commandKey && key == S {
        call := HandleSave(rejected);
      }
      if IsSet(editingId) && commandKey && key == Enter {
        call := HandleSave(rejected);
      }
      if showAddDialog && key == Escape {
        showAddDialog := false;
        newKeyId := "";
        newKeySource := "";
      }
    }

    /** handleDragEnd: the same guards and the same reorder as the React
        table, without a sort mode to reset. */
    method HandleDragEnd(units: seq<TranslationUnit>, searchQuery: string, isSourceOnly: bool,
                         activeId: string, overId: Option<string>)
      returns (reorder: Option<seq<TranslationUnit>>)
      ensures var filtered := FilteredUnits(units, searchQuery, isSourceOnly);
        reorder.Some? <==>
          overId.Some? && activeId != overId.value && activeId in Ids(filtered) && overId.value in Ids(filtered)
      ensures reorder.Some? ==>
        var filtered := FilteredUnits(units, searchQuery, isSourceOnly);
        var oldIndex := IndexOf(Ids(filtered), activeId);
        var newIndex := IndexOf(Ids(filtered), overId.value);
        reorder.value == TranslationTable.Reordered(units, TranslationTable.ArrayMove(filtered, oldIndex, newIndex))
    {
      reorder := None;
      if overId.Some? && activeId != overId.value {
        var filtered := FilteredUnits(units, searchQuery, isSourceOnly);
        var oldIndex := IndexOf(Ids(filtered), activeId);
        var newIndex := IndexOf(Ids(filtered), overId.value);
        if oldIndex != -1 && newIndex != -1 {
          var newOrder := TranslationTable.ArrayMove(filtered, oldIndex, newIndex);
          reorder := Some(TranslationTable.Reordered(units, newOrder));
        }
      }
    }
  }
}
