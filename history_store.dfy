/**
 * The undo/redo history store (frontend/src/stores/history.ts): one pair of
 * stacks per file path, in a JavaScript Map. Pushing an entry clears the
 * redo stack and keeps at most the fifty newest undo entries; undo and redo
 * move the top entry from one stack to the other.
 */
module HistoryStore {
  import opened Common
  import opened Types

  const MaxHistoryEntries: nat := 50

  datatype HistoryStack = HistoryStack(undoStack: seq<HistoryEntry>, redoStack: seq<HistoryEntry>)

  const EmptyStack := HistoryStack([], [])

  /** fileHistory: file path to its stacks. */
  type Histories = seq<(string, HistoryStack)>

  // ---------------------------------------------------------------------
  // describeChanges
  // ---------------------------------------------------------------------

  /** The field names as the UnitChange type spells them. */
  function FieldName(f: Field): string {
    match f
    case Id => "id"
    case Source => "source"
    case Target => "target"
  }

  /** `new Set(changes.map(c => c.field))` */
  function FieldSet(changes: seq<UnitChange>): set<Field> {
    set c | c in changes :: c.field
  }

  /** The text for a single change, one per field. */
  function DescribeOne(c: UnitChange): string {
    match c.field
    case Id => "Rename \"" + c.oldValue + "\" \U{2192} \"" + c.newValue + "\""
    case Source => "Edit source for \"" + c.unitId + "\""
    case Target => "Edit translation for \"" + c.unitId + "\""
  }

  /** The description shown in the undo/redo tooltips. */
  function DescribeChanges(changes: seq<UnitChange>): (r: string)
    ensures r == "" <==> changes == []
  {
    if |changes| == 0 then ""
    else if |changes| == 1 then DescribeOne(changes[0])
    else if |FieldSet(changes)| == 1 then
      "Edit " + FieldName(changes[0].field) + " for " + NatToString(|changes|) + " units"
    else
      "Edit " + NatToString(|changes|) + " changes"
  }

  /** A Set of the fields has one element exactly when every change has the
      first change's field. */
  lemma FieldSetSingleton(changes: seq<UnitChange>)
    requires changes != []
    ensures |FieldSet(changes)| == 1 <==> forall i :: 0 <= i < |changes| ==> changes[i].field == changes[0].field
  {
    var s := FieldSet(changes);
    var f0 := changes[0].field;
    assert f0 in s;
    if forall i :: 0 <= i < |changes| ==> changes[i].field == f0 {
      forall f | f in s ensures f == f0 {
        var c :| c in changes && c.field == f;
        var i :| 0 <= i < |changes| && changes[i] == c;
      }
      assert s == {f0};
    } else {
      var i :| 0 <= i < |changes| && changes[i].field != f0;
      assert changes[i].field in s - {f0};
      assert |s - {f0}| >= 1;
      assert |s| == |s - {f0}| + 1;
    }
  }

  /** The four kinds of description, stated on the changes rather than on
      the Set the source builds. */
  lemma DescribeChangesCases(changes: seq<UnitChange>)
    ensures |changes| == 1 ==> DescribeChanges(changes) == DescribeOne(changes[0])
    ensures |changes| > 1 && (forall i :: 0 <= i < |changes| ==> changes[i].field == changes[0].field) ==>
      DescribeChanges(changes) == "Edit " + FieldName(changes[0].field) + " for " + NatToString(|changes|) + " units"
    ensures |changes| > 1 && (exists i :: 0 <= i < |changes| && changes[i].field != changes[0].field) ==>
      DescribeChanges(changes) == "Edit " + NatToString(|changes|) + " changes"
  {
    if changes != [] {
      FieldSetSingleton(changes);
    }
  }

  // ---------------------------------------------------------------------
  // The stacks of one file, and the whole map
  // ---------------------------------------------------------------------

  /** The newest n entries: `shift()` until at most n remain. */
  function KeepNewest(s: seq<HistoryEntry>, n: nat): (r: seq<HistoryEntry>)
    ensures |r| == if |s| > n then n else |s|
    ensures r == s[|s| - |r|..]
  {
    if |s| > n then s[|s| - n..] else s
  }

  /** The stacks of a file, an empty pair when it has none. */
  function StackOf(h: Histories, p: string): HistoryStack {
    GetOr(h, p, EmptyStack)
  }

  /** pushEntry's new map for a non-empty change list. */
  function Pushed(h: Histories, p: string, entry: HistoryEntry): Histories {
    Put(h, p, HistoryStack(KeepNewest(StackOf(h, p).undoStack + [entry], MaxHistoryEntries), []))
  }

  predicate CanUndo(h: Histories, p: string) {
    Get(h, p).Some? && |Get(h, p).value.undoStack| > 0
  }

  predicate CanRedo(h: Histories, p: string) {
    Get(h, p).Some? && |Get(h, p).value.redoStack| > 0
  }

  /** selectUndoStackSize */
  function UndoStackSize(h: Histories, p: string): nat {
    match Get(h, p)
    case None => 0
    case Some(s) => |s.undoStack|
  }

  /** selectRedoStackSize */
  function RedoStackSize(h: Histories, p: string): nat {
    match Get(h, p)
    case None => 0
    case Some(s) => |s.redoStack|
  }

  /** What undo returns: the top of the undo stack, or null. */
  function UndoTop(h: Histories, p: string): Option<HistoryEntry> {
    if CanUndo(h, p) then
      var s := Get(h, p).value;
      Some(s.undoStack[|s.undoStack| - 1])
    else None
  }

  function RedoTop(h: Histories, p: string): Option<HistoryEntry> {
    if CanRedo(h, p) then
      var s := Get(h, p).value;
      Some(s.redoStack[|s.redoStack| - 1])
    else None
  }

  /** The map after undo: the top undo entry moved onto the redo stack. */
  function Undone(h: Histories, p: string): Histories {
    if CanUndo(h, p) then
      var s := Get(h, p).value;
      var n := |s.undoStack|;
      Put(h, p, HistoryStack(s.undoStack[..n - 1], s.redoStack + [s.undoStack[n - 1]]))
    else h
  }

  /** The map after redo: the top redo entry moved onto the undo stack. */
  function Redone(h: Histories, p: string): Histories {
    if CanRedo(h, p) then
      var s := Get(h, p).value;
      var n := |s.redoStack|;
      Put(h, p, HistoryStack(s.undoStack + [s.redoStack[n - 1]], s.redoStack[..n - 1]))
    else h
  }

  /** getUndoDescription */
  function UndoDescription(h: Histories, p: string): Option<string> {
    match UndoTop(h, p)
    case None => None
    case Some(e) => Some(DescribeChanges(e.changes))
  }

  /** getRedoDescription */
  function RedoDescription(h: Histories, p: string): Option<string> {
    match RedoTop(h, p)
    case None => None
    case Some(e) => Some(DescribeChanges(e.changes))
  }

  /** The store's invariant: keys unique, and no file holds more than fifty
      entries over its two stacks, since only pushEntry adds entries. */
  ghost predicate Bounded(h: Histories) {
    && UniqueKeys(h)
    && forall e :: e in h ==> |e.1.undoStack| + |e.1.redoStack| <= MaxHistoryEntries
  }

  // ---------------------------------------------------------------------
  // Properties
  // ---------------------------------------------------------------------

  /** After a push the entry is on top, the undo stack holds the newest
      at most fifty of the old ones plus the entry (the oldest dropped
      first), the redo stack is empty, and other files keep their stacks. */
  lemma PushedShape(h: Histories, p: string, entry: HistoryEntry, q: string)
    ensures var s := Get(Pushed(h, p, entry), p).value;
      && Get(Pushed(h, p, entry), p).Some?
      && UndoTop(Pushed(h, p, entry), p) == Some(entry)
      && |s.undoStack| <= MaxHistoryEntries
      && s.undoStack == (StackOf(h, p).undoStack + [entry])[|StackOf(h, p).undoStack| + 1 - |s.undoStack|..]
      && (|StackOf(h, p).undoStack| < MaxHistoryEntries ==> s.undoStack == StackOf(h, p).undoStack + [entry])
      && s.redoStack == []
      && !CanRedo(Pushed(h, p, entry), p)
    ensures q != p ==> Get(Pushed(h, p, entry), q) == Get(h, q)
  {
  }

  lemma PushedBounded(h: Histories, p: string, entry: HistoryEntry)
    requires Bounded(h)
    ensures Bounded(Pushed(h, p, entry))
  {
    PutUnique(h, p, HistoryStack(KeepNewest(StackOf(h, p).undoStack + [entry], MaxHistoryEntries), []));
  }

  /** Undo and redo move one entry and keep the invariant. */
  lemma UndoneBounded(h: Histories, p: string)
    requires Bounded(h)
    ensures Bounded(Undone(h, p)) && Bounded(Redone(h, p))
  {
    if CanUndo(h, p) {
      var s := Get(h, p).value;
      var n := |s.undoStack|;
      PutUnique(h, p, HistoryStack(s.undoStack[..n - 1], s.redoStack + [s.undoStack[n - 1]]));
    }
    if CanRedo(h, p) {
      var s := Get(h, p).value;
      var n := |s.redoStack|;
      PutUnique(h, p, HistoryStack(s.undoStack + [s.redoStack[n - 1]], s.redoStack[..n - 1]));
    }
  }

  /** canUndo/canRedo agree with the size selectors, which give 0 for a
      file with no history; undo shrinks the undo stack by one and grows
      the redo stack by one, and redo does the reverse. */
  lemma StackSizes(h: Histories, p: string)
    ensures CanUndo(h, p) <==> UndoStackSize(h, p) > 0
    ensures CanRedo(h, p) <==> RedoStackSize(h, p) > 0
    ensures p !in Keys(h) ==> UndoStackSize(h, p) == 0 && RedoStackSize(h, p) == 0
    ensures CanUndo(h, p) ==>
      UndoStackSize(Undone(h, p), p) == UndoStackSize(h, p) - 1 && RedoStackSize(Undone(h, p), p) == RedoStackSize(h, p) + 1
    ensures CanRedo(h, p) ==>
      UndoStackSize(Redone(h, p), p) == UndoStackSize(h, p) + 1 && RedoStackSize(Redone(h, p), p) == RedoStackSize(h, p) - 1
  {
  }

  /** undo then redo on the same file gives back both stacks exactly, and
      redo returns the entry undo returned. */
  lemma UndoThenRedo(h: Histories, p: string)
    requires UniqueKeys(h) && CanUndo(h, p)
    ensures RedoTop(Undone(h, p), p) == UndoTop(h, p)
    ensures Redone(Undone(h, p), p) == h
  {
    var s := Get(h, p).value;
    var n := |s.undoStack|;
    var s1 := HistoryStack(s.undoStack[..n - 1], s.redoStack + [s.undoStack[n - 1]]);
    var h1 := Put(h, p, s1);
    assert Get(h1, p) == Some(s1);
    assert s1.undoStack + [s1.redoStack[|s1.redoStack| - 1]] == s.undoStack;
    assert s1.redoStack[..|s1.redoStack| - 1] == s.redoStack;
    PutPut(h, p, s1, s);
    PutSame(h, p, s);
  }

  /** redo then undo on the same file gives back both stacks exactly. */
  lemma RedoThenUndo(h: Histories, p: string)
    requires UniqueKeys(h) && CanRedo(h, p)
    ensures UndoTop(Redone(h, p), p) == RedoTop(h, p)
    ensures Undone(Redone(h, p), p) == h
  {
    var s := Get(h, p).value;
    var n := |s.redoStack|;
    var s1 := HistoryStack(s.undoStack + [s.redoStack[n - 1]], s.redoStack[..n - 1]);
    var h1 := Put(h, p, s1);
    assert Get(h1, p) == Some(s1);
    assert s1.undoStack[..|s1.undoStack| - 1] == s.undoStack;
    assert s1.redoStack + [s1.undoStack[|s1.undoStack| - 1]] == s.redoStack;
    PutPut(h, p, s1, s);
    PutSame(h, p, s);
  }

  /** Undo and redo on one file leave every other file's stacks alone. */
  lemma UndoRedoLocal(h: Histories, p: string, q: string)
    requires q != p
    ensures Get(Undone(h, p), q) == Get(h, q) && Get(Redone(h, p), q) == Get(h, q)
  {
  }

  /** The undo tooltip right after a push describes the pushed changes. */
  lemma PushedDescription(h: Histories, p: string, entry: HistoryEntry)
    ensures UndoDescription(Pushed(h, p, entry), p) == Some(DescribeChanges(entry.changes))
    ensures RedoDescription(Pushed(h, p, entry), p) == None
  {
    PushedShape(h, p, entry, p);
  }

  // ---------------------------------------------------------------------
  // The store
  // ---------------------------------------------------------------------

  class History {
    var fileHistory: Histories

    ghost predicate Valid()
      reads this
    {
      Bounded(fileHistory)
    }

    constructor()
      ensures Valid() && fileHistory == []
    {
      fileHistory := [];
    }

    /** The `while (length > MAX) shift()` loop. */
    static method DropOldest(s: seq<HistoryEntry>) returns (r: seq<HistoryEntry>)
      ensures r == KeepNewest(s, MaxHistoryEntries)
    {
      r := s;
      while |r| > MaxHistoryEntries
        invariant |r| <= |s| && r == s[|s| - |r|..]
        invariant |s| <= MaxHistoryEntries ==> r == s
        invariant |s| > MaxHistoryEntries ==> |r| >= MaxHistoryEntries
        decreases |r|
      {
        r := r[1..];
      }
    }

    /** pushEntry; the entry's generated id and the clock reading are
        parameters. */
    method PushEntry(filePath: string, changes: seq<UnitChange>, entryId: string, now: int)
      requires Valid()
      modifies this
      ensures Valid()
      ensures changes == [] ==> fileHistory == old(fileHistory)
      ensures changes != [] ==> fileHistory == Pushed(old(fileHistory), filePath, HistoryEntry(entryId, filePath, changes, now))
    {
      if |changes| == 0 {
        return;
      }
      var entry := HistoryEntry(entryId, filePath, changes, now);
      PushedBounded(fileHistory, filePath, entry);
      var stack := GetOr(fileHistory, filePath, EmptyStack);
      var undo := DropOldest(stack.undoStack + [entry]);
      fileHistory := Put(fileHistory, filePath, HistoryStack(undo, []));
    }

    method Undo(filePath: string) returns (r: Option<HistoryEntry>)
      requires Valid()
      modifies this
      ensures Valid()
      ensures r == UndoTop(old(fileHistory), filePath)
      ensures fileHistory == Undone(old(fileHistory), filePath)
    {
      UndoneBounded(fileHistory, filePath);
      var stack := Get(fileHistory, filePath);
      if stack.None? || |stack.value.undoStack| == 0 {
        return None;
      }
      var s := stack.value;
      var entry := s.undoStack[|s.undoStack| - 1];
      fileHistory := Put(fileHistory, filePath, HistoryStack(s.undoStack[..|s.undoStack| - 1], s.redoStack + [entry]));
      r := Some(entry);
    }

    method Redo(filePath: string) returns (r: Option<HistoryEntry>)
      requires Valid()
      modifies this
      ensures Valid()
      ensures r == RedoTop(old(fileHistory), filePath)
      ensures fileHistory == Redone(old(fileHistory), filePath)
    {
      UndoneBounded(fileHistory, filePath);
      var stack := Get(fileHistory, filePath);
      if stack.None? || |stack.value.redoStack| == 0 {
        return None;
      }
      var s := stack.value;
      var entry := s.redoStack[|s.redoStack| - 1];
      fileHistory := Put(fileHistory, filePath, HistoryStack(s.undoStack + [entry], s.redoStack[..|s.redoStack| - 1]));
      r := Some(entry);
    }

    /** clearHistory(filePath?): a given (truthy) path loses its stacks and
        nothing else changes; no path, or the empty string, clears all. */
    method ClearHistory(filePath: Option<string>)
      requires Valid()
      modifies this
      ensures Valid()
      ensures IsSet(filePath) ==> forall q :: Get(fileHistory, q) == if q == filePath.value then None else Get(old(fileHistory), q)
      ensures !IsSet(filePath) ==> fileHistory == []
    {
      if IsSet(filePath) {
        fileHistory := Delete(fileHistory, filePath.value);
      } else {
        fileHistory := [];
      }
    }

    method Reset()
      modifies this
      ensures Valid() && fileHistory == []
    {
      fileHistory := [];
    }
  }
}
