# t3lang core, modelled in Dafny

t3lang edits TYPO3 XLIFF translation files. A TYPO3 extension keeps one
source file per base name (`locallang.xlf`, language "default") and one file
per translation (`de.locallang.xlf`) beside it. The editor finds these files
in a workspace, groups them by directory and base name, shows each file's
translation units in a table, and writes edits back.

This project models the parts of the system that decide what the editor shows
and writes:

- the Go backend's workspace scan, file-name parser and file watcher
  (`services/workspace.go`, `services/watcher.go`);
- the React front end's stores (editor, workspace, UI, history, persistence),
  its hooks (workspace, history, sync, file operations), the unit sort, the
  dashboard computations and the translation table (`frontend/src/...`);
- the older Tauri front end's file operations, translation table and
  application state (`src/...`).

Layout: one module per source file, plus `Common` and `Types`.

- `Common` holds Option/Result, the string builtins the source relies on,
  ordered association lists standing for JavaScript `Map`s, and a stable
  insertion sort standing for `Array.prototype.sort`.
- `Types` holds the shared data shapes.
- Pure code is written as functions and lemmas.
- Stores and objects whose fields change become classes with `modifies`
  frames. Loops in the source become methods with loop invariants, each
  proved against a specification function whose properties are proved
  as lemmas.

Conventions used throughout the model:

- `localeCompare` is a parameter `le`, assumed to be a total preorder, and
  Go's string order is code-point order.
- Reading files, parsing XML, dialogs, timers, clocks and generated ids
  are parameters of the methods that use them. Writes are results of
  those methods.
- Promise-based code runs as one sequential step per handler.

## Behaviour of the code the model keeps

Each of these follows from the cited lines, and the model reproduces it.

- Hidden root. The scanner skips the walk root when its own name starts
  with "." (`services/workspace.go:67-70`), so such a workspace scans as
  empty (`GoWorkspace.HiddenRootIsEmpty`). The watcher, by contrast,
  registers such a root (`services/watcher.go:67`).
- Restarting the watcher. `Stop` closes the stop channel and the
  file-system watcher (`services/watcher.go:97-99`), and nothing re-creates
  them. A stopped watcher is therefore single-use: it delivers no further
  events, and a second `Stop` would close a closed channel.
- Failed `Start`. When the initial walk fails, `Start` returns the error
  with `running` still true and no event loop started
  (`services/watcher.go:57-79`). A later `Start` then returns nil without
  watching, and a later `Stop` waits on the stopped channel
  (`services/watcher.go:98`) that no loop will ever close, so it blocks
  forever before closing anything (`GoWatcher.WorkspaceWatcher.Stop`).
- Hidden directories in the watcher. A directory created after `Start` is
  added to the watch set even when its name starts with "."
  (`services/watcher.go:116-124`), although the initial walk skips hidden
  directories.
- The ".xliff" suffix. For a language-less name the Go parser strips
  ".xliff" like ".xlf"; the two TypeScript copies of the parser strip only
  ".xlf" (`FileOperations.ParserDifferences`).
- Undo after a rename. The undo/redo hook matches recorded changes by the id
  they were recorded under (`frontend/src/hooks/useHistory.ts:27-47`), so
  undoing a rename that was applied leaves the unit renamed
  (`UseHistory.UndoMissesRenamedUnit`).
- Saving a renamed unit. In the workspace hook's save, a unit renamed onto
  an id that itself has pending edits takes those edits in the written
  document but not in the cached units (`UseWorkspace.RenameMeetsLaterEntry`).

## Model

| member | source | states |
|---|---|---|
| Common.Lower | frontend/src/stores/editor.ts:223-227 | `toLowerCase` keeps the length and lowers each character on its own |
| Common.TrimEmptyIffBlank | frontend/src/stores/editor.ts:219-222 | `trim()` leaves nothing exactly when the string is all whitespace or line terminators |
| Common.LastIndexOf | src/App.tsx:76 | `lastIndexOf` gives the last position holding the value, and -1 exactly when it is absent |
| Common.PutUnique | src/App.tsx:39-41 | `Map.set` keeps every key once |
| Common.PutPut | src/App.tsx:62 | a second `set` of the same key replaces the first value in place |
| Common.Dedup | frontend/src/hooks/useSync.ts:68-71 | `Array.from(new Set(...))` holds the same values, each once |
| Common.SortBy | frontend/src/utils/sort.ts:9-13 | `Array.prototype.sort` returns a permutation of its input |
| Common.SortBySorted | frontend/src/utils/sort.ts:9-13 | under a total preorder the sorted list is in order |
| Common.SortByStable | frontend/src/utils/sort.ts:9-13 | elements the comparison treats as equal keep their relative order |
| Common.StrLePreorder | frontend/src/utils/__tests__/sort.test.ts:3-16 | ordering strings by code point, the order under which the unit tests' expected results are read, is a total preorder |
| Common.DecimalRoundTrip | frontend/src/stores/history.ts:55-58 | a count in a template string is written in decimal digits that read back as the count |
| GoWorkspace.ParseT3FileName | services/workspace.go:35-54 | the language is "default" or two lowercase ASCII letters; a two-letter result rebuilds the name as `<lang>.<base>.xlf` with a non-empty, newline-free base; otherwise a ".xlf" suffix, then a ".xliff" suffix, is cut off, and any other name comes back whole, always with "default" |
| GoWorkspace.ParseLanguagePrefixed | services/workspace.go:36-43 | every `<code>.<base>.xlf` with a two-letter code and a non-empty, newline-free base parses back to exactly (code, base) |
| GoWorkspace.ParseGreedyMiddle | services/workspace.go:36-43 | the middle group is greedy: "de.a.b.xlf" gives ("de", "a.b") |
| GoWorkspace.ParseShortNames | services/workspace.go:45-53 | "de.xlf" has no middle and falls back to ("default", "de"); ".xlf" gives ("default", ""); "x.xliff" gives ("default", "x") |
| GoWorkspace.ParseNewlineInMiddle | services/workspace.go:36-47 | RE2's `.` does not match a newline, so "de.a\n.xlf" misses the pattern and takes the ".xlf" fallback |
| GoWorkspace.ScanWorkspace | services/workspace.go:56-142 | a walk error is returned with no partial scan; otherwise the scan keeps the root path, counts what the callback counted, and lists every collected group exactly once, sorted by display name |
| GoWorkspace.GroupValues | services/workspace.go:128-132 | collecting the map's values in any iteration order yields each group exactly once |
| GoWorkspace.SortGroups | services/workspace.go:144-153 | the in-place exchange sort leaves the array ordered by BaseName (byte order) and a permutation of its input |
| GoWorkspace.SortGroupsPass | services/workspace.go:147-151 | one pass of the inner loop leaves a least base name of the rest at position i, keeps the sorted prefix and permutes the slice |
| GoWorkspace.LanguageKeys | services/workspace.go:156-160 | collecting the map's keys in any iteration order yields each language exactly once |
| GoWorkspace.GetGroupLanguages | services/workspace.go:155-165 | every language of the group exactly once, "default" first when present, the others in ascending byte order |
| GoWorkspace.SortLanguages | services/workspace.go:167-179 | the in-place exchange sort puts "default" before everything and the rest in ascending order, and permutes its input |
| GoWorkspace.SortLanguagesPass | services/workspace.go:170-177 | one pass of the inner loop leaves a least language of the rest ("default" first) at position i, keeps the sorted prefix and permutes the slice |
| GoWorkspace.CompareLanguages | services/workspace.go:172-176 | a comparison swaps a later "default", or a smaller name after a non-default one, forward; position i then holds a least language seen so far, and the slice is permuted |
| GoWorkspace.SwapKeepsOrder | services/workspace.go:172-175 | either swap keeps every earlier position ordered before the rest and makes position i least among positions i to j |
| GoWorkspace.CollectCounts | services/workspace.go:76-81 | TotalFiles is the number of visited entries whose name ends ".xlf" or ".xliff" |
| GoWorkspace.WalkDirectoryCounts | services/workspace.go:62-81 | below one directory, the walk fails exactly when a directory it must read is unreadable, and otherwise counts exactly the tree's XLIFF files outside hidden directories |
| GoWorkspace.WalkEntriesCounts | services/workspace.go:62-81 | the same for a directory's entries, walked in order |
| GoWorkspace.ScanCountsTree | services/workspace.go:62-81 | for a whole tree: the walk errs exactly when some reachable directory is unreadable, and TotalFiles is the reference count of XLIFF-named files outside hidden directories |
| GoWorkspace.HiddenRootIsEmpty | services/workspace.go:67-70 | a root whose own name starts with "." is skipped whole: no error, no groups, no files |
| GoWorkspace.CollectWellFormed | services/workspace.go:83-119 | every collected group sits under its own id, each file under its own language, and its source file is its "default" file when it has one |
| GoWorkspace.CollectGroupExists | services/workspace.go:83-104 | a group exists exactly for the keys (directory joined with base name) some XLIFF file was filed under; the language plays no part |
| GoWorkspace.CollectGroupSource | services/workspace.go:87-103 | a group exists only when some XLIFF file was filed under its key |
| GoWorkspace.CollectGroupHas | services/workspace.go:87-103 | an XLIFF file filed under a key leaves a group under that key from then on |
| GoWorkspace.CollectGroupHeader | services/workspace.go:88-104 | the first file filed under a key fixes the group's id (the key), its directory and its display name |
| GoWorkspace.AddVisit | services/workspace.go:76-119 | one callback run on a file entry gives the state the fold step defines: an XLIFF file is counted and filed under its language in its group, created on first sight |
| GoWorkspace.CollectVisits | services/workspace.go:59-121 | running the callback over the visits in walk order gives the folded scan state |
| GoWorkspace.AddFileEffect | services/workspace.go:76-119 | one callback run touches only its own group, creating it when missing and setting the file under its language |
| GoWorkspace.CollectGroupFiles | services/workspace.go:106-114 | a language is in a group's files exactly when some file of that group has it |
| GoWorkspace.CollectFileSource | services/workspace.go:106-113 | every language in a group's files came from a file of that group with that language |
| GoWorkspace.CollectFileHas | services/workspace.go:106-113 | a file of a group puts its language in the group's files, and later files never remove it |
| GoWorkspace.CollectLastWins | services/workspace.go:114 | of several files with one language in a group, the last one visited is the one kept |
| GoWatcher.ConvertEvent | services/watcher.go:143-173 | no event exactly when the op has none of Create, Write, Remove, Rename; an event keeps the path, and only a rename carries the path again as its old path |
| GoWatcher.ConvertEventLowestBit | services/watcher.go:145-170 | the switch's priority order is the bits' order: the kind is that of the lowest of the four bits set |
| GoWatcher.ConvertEventChmodOnly | services/watcher.go:145-172 | a Chmod-only op gives nothing; Create together with Write gives a create event with an empty old path |
| GoWatcher.WatchDirectoryAgreesWithScan | services/watcher.go:61-75 | below the root the watcher's walk fails exactly where the scanner's walk fails, and otherwise adds one watch per visible directory |
| GoWatcher.WatchEntriesAgreeWithScan | services/watcher.go:61-75 | the same for a directory's entries, in order |
| GoWatcher.WatchRootAlwaysAdded | services/watcher.go:66-72 | the root is always added first, even when its own name starts with "." (where the scanner skips it); the walk fails exactly when the root or a visible directory below it is unreadable |
| GoWatcher.DispatchEventsAreXliff | services/watcher.go:116-132 | only paths ending ".xlf" or ".xliff" reach the callback |
| GoWatcher.DispatchAddsCreatedDirs | services/watcher.go:116-124 | every path added to the watch set is a non-XLIFF path from a Create event that stats as a directory; hidden names are not excluded |
| GoWatcher.DispatchAtMostOnePerEvent | services/watcher.go:128-132 | at most one callback per XLIFF event |
| GoWatcher.DispatchStopsAtEnd | services/watcher.go:106-114 | nothing after the first stop signal or closed channel changes the outcome, and the loop has ended |
| GoWatcher.DispatchDropsErrors | services/watcher.go:134-139 | an item on the error channel is dropped and the loop carries on as if it had not arrived |
| GoWatcher.WorkspaceWatcher.constructor | services/watcher.go:34-48 | a new watcher is not running, watches nothing, and has both channels open |
| GoWatcher.WorkspaceWatcher.Start | services/watcher.go:50-85 | a running watcher returns nil and changes nothing; otherwise running becomes true before the walk, the walk's directories join the watch set, a walk error is returned with running left true and no loop started, and without one the loop starts; a closed fsnotify handle fails the first Add, so a walk that adds a directory then fails with the closed-watcher error, while a missing or file root adds nothing and returns the walk's own result |
| GoWatcher.WorkspaceWatcher.Stop | services/watcher.go:87-100 | a watcher that is not running returns at once; otherwise running is cleared and stopCh closed (a second close panics, so a watcher is single-use); with an event loop running it waits for the loop to finish and closes the file-system watcher, but after a failed Start no loop exists and Stop blocks forever on the stopped channel without closing anything |
| GoWatcher.WorkspaceWatcher.HandleEvent | services/watcher.go:117-132 | a non-XLIFF create of a directory adds it to the watch set and reaches no callback; an XLIFF event reaches the callback as its conversion; nothing else changes |
| GoWatcher.WorkspaceWatcher.EventLoop | services/watcher.go:102-141 | the emitted events and the watch set's growth are exactly the dispatch of the received items, and exactly when the loop ends it closes stoppedCh (panicking if it was already closed), so a later Stop returns |
| FileOperations.ParseT3FileName | frontend/src/hooks/useFileOperations.ts:19-45 | the language is 'default' or two lowercase letters; a two-letter result rebuilds the name as `<lang>.<base>.xlf` with a non-empty base free of line terminators; a 'default' result of a name matching `^(.+)\.xlf$` rebuilds it as `<base>.xlf`; any other name comes back whole |
| FileOperations.ParseLanguagePrefixed | frontend/src/hooks/useFileOperations.ts:23-30 | every `<code>.<base>.xlf` with a two-letter code and a non-empty base without line terminators parses back to (code, base) |
| FileOperations.ParserDifferences | src/hooks/useFileOperations.ts:21-45 | where the TypeScript copies and the Go parser disagree: "x.xliff" keeps its suffix here, and ".xlf" alone is too short for `(.+)` and comes back whole |
| FileOperations.ParsersAgree | frontend/src/hooks/useWorkspace.ts:20-32 | for names without line terminators, not ending ".xliff" and other than ".xlf", the TypeScript parser gives what the Go parser gives |
| FileOperations.LastSegment | frontend/src/hooks/useFileOperations.ts:55 | `split(/[\\/]/).pop()`: the longest suffix without '/' or '\', which follows a separator whenever it is not the whole path |
| FileOperations.ExtractUnits | frontend/src/hooks/useFileOperations.ts:73-81 | one editor unit per XLIFF unit, in order, with target '' for a source-only file and otherwise the unit's target or '' |
| FileOperations.LoadFile | frontend/src/hooks/useFileOperations.ts:48-100 | data exactly when the document parsed, keeping the path and the parsed document; a failure gives null |
| FileOperations.UnitsOfAllUnits | frontend/src/hooks/useFileOperations.ts:65-82 | the units are those of all files concatenated, in order, each extracted alike |
| FileOperations.LoadFileSourceOnly | src/hooks/useFileOperations.ts:56-77 | a file is source-only exactly when its name parses to 'default'; then every target is '' and the target language is '', otherwise the target language is never empty; one unit per XLIFF unit |
| FileOperations.TargetLanguageSourceOnly | frontend/src/hooks/useFileOperations.ts:69 | a source-only file never takes a target language from its files |
| FileOperations.TargetLanguageSet | frontend/src/hooks/useFileOperations.ts:62-71 | a non-empty starting target language stays non-empty |
| FileOperations.SourceLanguageIsLastSet | frontend/src/hooks/useFileOperations.ts:61-68 | the source language is that of the last file that sets one, else 'en' |
| FileOperations.TargetLanguageIsLastSet | frontend/src/hooks/useFileOperations.ts:62-71 | outside source-only mode the target language is that of the last file that sets one, else the file name's language |
| FileOperations.ScanForXliffFiles | frontend/src/hooks/useFileOperations.ts:120-131 | the backend's entries as (name, path) pairs in their order, and [] when the listing throws |
| TauriFileOperations.ScanForXliffFiles | src/hooks/useFileOperations.ts:113-138 | the recursive scan collects exactly the reference set of files of the directory tree, in depth-first entry order |
| TauriFileOperations.CollectedAreXlf | src/hooks/useFileOperations.ts:121-130 | every collected file's name ends ".xlf" (so ".xliff" files are never collected) and its path is `<dir>/.../<name>` below the scanned directory |
| TauriFileOperations.CollectedAreXlfAmong | src/hooks/useFileOperations.ts:121-130 | the same for a listing's entries |
| TauriFileOperations.CollectedInOrder | src/hooks/useFileOperations.ts:121-133 | results follow the entry order: the files of a listing are those of its first part, then those of the rest |
| TauriFileOperations.UnreadableSubdirectoryIsSkipped | src/hooks/useFileOperations.ts:134-137 | a subdirectory whose readDir throws contributes nothing, and its siblings are still collected |
| TauriFileOperations.HiddenDirectoriesAreScanned | src/hooks/useFileOperations.ts:121-127 | directories whose names start with "." are walked like any other |
| UseWorkspace.FileWithEntry | frontend/src/hooks/useWorkspace.ts:214-227 | one dirty entry passes over a file: the languages and the number of units stay, and each unit, by position, gets the entry's changes exactly when its current id is the entry's key |
| UseWorkspace.DocumentWithEntry | frontend/src/hooks/useWorkspace.ts:213-229 | one dirty entry passes over every file of the deep copy, keeping the version and the number of files |
| UseWorkspace.SavedDocument | frontend/src/hooks/useWorkspace.ts:211-229 | the written document has as many files as the cached one, and each file as many units |
| UseWorkspace.SavedUnits | frontend/src/hooks/useWorkspace.ts:240-251 | the new cached units keep the length and order of the old ones; each is the old unit with the changes of the entry for its id, or the old unit when there is none |
| UseWorkspace.SavedDocumentPerUnit | frontend/src/hooks/useWorkspace.ts:211-229 | the nested loops act unit by unit: the version, the files' languages and all lengths stay, and unit j of file i is that unit with the entries that meet it, in map order |
| UseWorkspace.ApplyXliffChangesKeepsId | frontend/src/hooks/useWorkspace.ts:217-225 | changes to the source or target never alter a unit's id |
| UseWorkspace.SavedXliffUnitNoRename | frontend/src/hooks/useWorkspace.ts:213-229 | without id changes, a unit in the written document takes exactly the changes recorded under its own id, and is untouched when there are none |
| UseWorkspace.RenameMeetsLaterEntry | frontend/src/hooks/useWorkspace.ts:213-229 | the document loop and the units map disagree after a rename: an id change from "a" to "b" lets the entry for "b" also reach the renamed unit in the written document, but not in the cached units |
| UseWorkspace.ApplyChangesCommutesWithView | frontend/src/hooks/useWorkspace.ts:217-225 | applying a change list to a parsed unit and then taking the editor's view of it equals applying the same list to the editor's view |
| UseWorkspace.ApplyUnitChangesField | frontend/src/hooks/useWorkspace.ts:245-249 | with at most one change per field, a field ends as its change's newValue and is otherwise left as it was |
| UseWorkspace.SaveWritesPendingChanges | frontend/src/hooks/useWorkspace.ts:240-251 | after a save, every field of every cached unit holds the newValue of the file's pending change for that unit and field, and is unchanged when there is none |
| UseWorkspace.SavedDocumentMatchesUnits | frontend/src/hooks/useWorkspace.ts:211-257 | when no change renames, the written document and the new cached units agree unit by unit |
| UseWorkspace.WorkspaceHook.constructor | frontend/src/hooks/useWorkspace.ts:199 | the recently-saved set starts empty |
| UseWorkspace.WorkspaceHook.LoadFile | frontend/src/hooks/useWorkspace.ts:54-108 | a cached entry comes back without reading and the cache stays; otherwise the result is the extraction of the read document (nothing on an error), and a result is cached under the path; no other store field changes |
| UseWorkspace.CacheAfterLoadKeys | frontend/src/hooks/useWorkspace.ts:54-108 | after one load the path is cached iff it was before or its read succeeded, and no other path joins or leaves the cache |
| UseWorkspace.CacheAfterLoadsKeys | frontend/src/hooks/useWorkspace.ts:115-116 | after loading a list of paths, each listed path is cached iff it was before or its read succeeded |
| UseWorkspace.CacheAfterLoadsUntouched | frontend/src/hooks/useWorkspace.ts:115-116 | loading a list of paths keeps every entry cached before and the entry of every unlisted path |
| UseWorkspace.CacheAfterLoadsUnique | frontend/src/hooks/useWorkspace.ts:115-116 | loading a list of paths into a cache with distinct paths keeps the paths distinct, as the keys of a Map are |
| UseWorkspace.WorkspaceHook.LoadInto | frontend/src/hooks/useWorkspace.ts:54-108 | one load leaves the cache as the cache-after-load function says (unchanged for a cached path or a failed read, else the extracted document added) and no other store field changes |
| UseWorkspace.WorkspaceHook.LoadFiles | frontend/src/hooks/useWorkspace.ts:115-116 | the cache after loading a list of paths is the loads in list order; each listed path is then cached iff it was before or reads, and other paths and earlier entries keep their data |
| UseWorkspace.WorkspaceHook.LoadGroup | frontend/src/hooks/useWorkspace.ts:111-122 | the group's files are loaded into the cache (a cached or unreadable path keeps its state), the group becomes the most recently loaded one, groups beyond ten are evicted from the front together with their files in the cache, at most ten groups stay loaded, and the loading flag and message end cleared |
| UseWorkspace.WorkspaceHook.LoadAndMark | frontend/src/hooks/useWorkspace.ts:114-118 | the cache is the old cache with the group's files loaded and then every evicted group's files deleted; the group is the most recently loaded one and at most ten groups stay loaded, the oldest evicted first |
| UseWorkspace.WorkspaceHook.ApplyEntryToUnit | frontend/src/hooks/useWorkspace.ts:217-225 | a matching unit's changes are written in order, each by its field |
| UseWorkspace.WorkspaceHook.ApplyEntryToFile | frontend/src/hooks/useWorkspace.ts:215-227 | the units of one file of the copy whose id matches the entry get its changes, the others stay |
| UseWorkspace.WorkspaceHook.ApplyEntryToDocument | frontend/src/hooks/useWorkspace.ts:214-228 | one dirty entry is applied to every file of the copy |
| UseWorkspace.WorkspaceHook.ApplyToDocument | frontend/src/hooks/useWorkspace.ts:211-229 | the dirty entries are applied one after another, in map order, to the deep copy |
| UseWorkspace.WorkspaceHook.ApplyToUnits | frontend/src/hooks/useWorkspace.ts:240-251 | each cached unit gets the changes keyed by its id, the others are kept |
| UseWorkspace.WorkspaceHook.StoreSaved | frontend/src/hooks/useWorkspace.ts:239-264 | after a write the cache holds the saved document and the units with the pending changes, the file's dirty state is cleared and a success notice names the file; the rest of the stores is untouched |
| UseWorkspace.WorkspaceHook.SaveFile | frontend/src/hooks/useWorkspace.ts:202-273 | nothing happens for an uncached file or one with no dirty changes; on success the cache holds the saved document and units, the file's dirty state is cleared, the path is recently saved and a success notice names the file; a failed write keeps the data and the dirty state but leaves the path recently saved; a failed serialisation does not; both add an error notice |
| UseWorkspace.WorkspaceHook.ForgetRecentlySaved | frontend/src/hooks/useWorkspace.ts:237 | the timer removes exactly that path from the recently-saved set |
| UseWorkspace.WorkspaceHook.ReloadCached | frontend/src/hooks/useWorkspace.ts:56-57 | a load of a cached path leaves the cache and the whole store as they were |
| UseWorkspace.WorkspaceHook.OnFileChanged | frontend/src/hooks/useWorkspace.ts:303-351 | a recently saved path is ignored; a modify of a cached, dirty file opens the conflict dialog for that path; a modify of a cached clean file adds a three-second "File updated" notice; an uncached modify, a create and a rename do nothing; a delete adds a "File deleted" warning; the cache never changes |
| UseWorkspace.WorkspaceHook.ConflictReload | frontend/src/hooks/useWorkspace.ts:317-323 | reloading from the conflict dialog returns the cached entry without reading, so the cache stays, and the file's local changes are dropped |
| EditorStore.FieldIndex | frontend/src/stores/editor.ts:79 | the index of the first change for the field, or -1 exactly when no change has that field |
| EditorStore.TrackFile | frontend/src/stores/editor.ts:72-103 | one file's map keeps distinct unit ids, and every unit entry keeps well-formed changes (possibly none), each about that unit, changing something, with distinct fields |
| EditorStore.Tracked | frontend/src/stores/editor.ts:66-104 | trackChange keeps the store's invariant: distinct paths, no empty file map, distinct unit ids per file, and per unit at most one change per field, possibly none |
| EditorStore.Cleared | frontend/src/stores/editor.ts:106-118 | clearChanges keeps the store's invariant, including when removing a unit empties the file |
| EditorStore.FieldEntryMember | frontend/src/stores/editor.ts:79 | with one change per field, the lookup is empty exactly when no change has that field and otherwise returns the one that has it |
| EditorStore.AppendFieldView | frontend/src/stores/editor.ts:100-102 | pushing a change for a new field keeps the fields distinct and only adds that field's entry |
| EditorStore.RemoveFieldView | frontend/src/stores/editor.ts:88-90 | splicing out one change keeps the fields distinct and removes only that field's entry |
| EditorStore.ReplaceFieldView | frontend/src/stores/editor.ts:80-87 | overwriting a change in place keeps the fields distinct and changes only that field's entry |
| EditorStore.TrackUnitView | frontend/src/stores/editor.ts:76-103 | on one unit's list, only the edited field's entry changes: replaced keeping the first oldValue, dropped on a revert, added when the value differs |
| EditorStore.TrackUnitWellFormed | frontend/src/stores/editor.ts:76-103 | a unit's list stays about that unit, with distinct fields |
| EditorStore.TrackChangeView | frontend/src/stores/editor.ts:66-104 | on the whole store, trackChange alters only the pending change of the edited (file, unit, field); every other pending change stays |
| EditorStore.GetOrTracked | frontend/src/stores/editor.ts:67-70 | only the edited file's map changes |
| EditorStore.TrackFileView | frontend/src/stores/editor.ts:72-76 | within the file, only the edited unit's list changes |
| EditorStore.ClearChangesView | frontend/src/stores/editor.ts:106-118 | clearChanges drops the pending changes of the given unit, or of the whole file without a unit id, and of nothing else |
| EditorStore.EditThenRevert | frontend/src/stores/editor.ts:80-97 | an edit records a change, and a second edit back to the original value leaves no pending change for that field |
| EditorStore.RepeatedEditKeepsFirstOldValue | frontend/src/stores/editor.ts:80-87 | a second edit keeps the first oldValue and takes the latest newValue |
| EditorStore.NoOpEditMarksFileDirty | frontend/src/stores/editor.ts:67-102 | an edit that changes nothing records no change for its field, yet the file's entry now holds the unit (with an empty change list when it had none), so the file and the unit read as dirty |
| EditorStore.HasUnsavedChangesIffEntry | frontend/src/stores/editor.ts:132-139 | under the invariant, a file has unsaved changes exactly when it has an entry |
| EditorStore.DirtyCountPositive | frontend/src/stores/editor.ts:198-204 | the dirty count is at least the number of files, and positive exactly when the store has unsaved changes |
| EditorStore.StepFocus | frontend/src/stores/editor.ts:162-164 | the next index stays in the list, moves by at most one, and stays put only at the top going up or at the bottom going down |
| EditorStore.SelectFilteredUnits | frontend/src/stores/editor.ts:211-232 | the result is a subsequence of the units holding exactly those kept by the missing-target filter and the case-insensitive text filter; with neither, it is the units themselves |
| EditorStore.Editor.constructor | frontend/src/stores/editor.ts:51-60 | the initial state: no changes, nothing focused or edited, manual sort, empty query, all units shown |
| EditorStore.Editor.TrackUnitChanges | frontend/src/stores/editor.ts:78-102 | the unit's change list after one edit is the tracked one: a tracked field keeps its first old value and is dropped when it reverts, a new no-op change is not recorded |
| EditorStore.Editor.TrackFileChanges | frontend/src/stores/editor.ts:72-93 | the file's map after one edit is the tracked one, with the unit entry created if missing and removed when a revert empties it |
| EditorStore.Editor.TrackDirty | frontend/src/stores/editor.ts:66-104 | the dirty map after one edit is the tracked one: the file entry is created if missing and dropped when a revert empties it |
| EditorStore.Editor.TrackChange | frontend/src/stores/editor.ts:66-104 | the dirty map becomes the tracked one, the invariant holds, and nothing else changes |
| EditorStore.Editor.ClearChanges | frontend/src/stores/editor.ts:106-118 | the dirty map becomes the cleared one, the invariant holds, and nothing else changes |
| EditorStore.Editor.ClearAllChanges | frontend/src/stores/editor.ts:120-122 | the dirty map becomes empty and nothing else changes |
| EditorStore.Editor.GetDirtyPaths | frontend/src/stores/editor.ts:124-126 | the dirty paths are distinct and are exactly the files with an entry |
| EditorStore.Editor.GetChangesForFile | frontend/src/stores/editor.ts:128-130 | the file's changes keep the invariant, and are empty exactly when the file has no entry |
| EditorStore.Editor.SelectDirtyCount | frontend/src/stores/editor.ts:198-204 | the loop's count is the number of unit entries summed over the files |
| EditorStore.Editor.SetFocusedUnit | frontend/src/stores/editor.ts:141-144 | the focus becomes the given unit and field, and nothing else changes |
| EditorStore.Editor.FindUnit | frontend/src/stores/editor.ts:156 | the search returns the first position of the focused id among the units, or -1 when no unit has it |
| EditorStore.Editor.MoveFocus | frontend/src/stores/editor.ts:146-167 | with nothing focused, the first unit's target gets the focus (no units: no change); an unknown focused id jumps to the first unit; otherwise the focus takes one clamped step and keeps its field |
| EditorStore.Editor.StartEditing | frontend/src/stores/editor.ts:169-174 | the unit and field are both being edited and focused |
| EditorStore.Editor.StopEditing | frontend/src/stores/editor.ts:176-179 | editing ends and the focus stays |
| WorkspaceStore.FromEntries | frontend/src/stores/workspace.ts:83 | the groups map has distinct keys, every entry is a scanned group under its own id, and every scanned group's id is a key |
| WorkspaceStore.PreferredLanguage | frontend/src/stores/workspace.ts:102-105 | a chosen language is one of the group's and is never the empty string |
| WorkspaceStore.FirstOther | frontend/src/stores/workspace.ts:103 | the index of the first language other than the given one, or -1 exactly when all are that one |
| WorkspaceStore.FilePaths | frontend/src/stores/workspace.ts:152-171 | the paths of a group's files, one per file, in map order |
| WorkspaceStore.DeleteAll | frontend/src/stores/workspace.ts:152-154 | deleting paths from the cache keeps its keys distinct |
| WorkspaceStore.SelectLanguagesForGroup | frontend/src/stores/workspace.ts:264-275 | an unknown group has no languages; otherwise the result is a permutation of the group's languages, sorted with 'default' first and the rest by locale |
| WorkspaceStore.SelectGroupsList | frontend/src/stores/workspace.ts:261-262 | the result is a permutation of the groups, sorted by base name |
| WorkspaceStore.SpliceOutRemoves | frontend/src/stores/workspace.ts:134-138 | with distinct ids, splicing out the first occurrence removes the id altogether and keeps the others' order |
| WorkspaceStore.MarkLoadedMovesToEnd | frontend/src/stores/workspace.ts:131-140 | with distinct ids, marking a group loaded leaves it exactly once, last, with the others in order |
| WorkspaceStore.RemoveAllSplit | frontend/src/stores/workspace.ts:134-137 | removing an id from a list splits around an occurrence of it |
| WorkspaceStore.RemoveAllDistinct | frontend/src/stores/workspace.ts:134-137 | removing an id keeps a list of distinct ids distinct |
| WorkspaceStore.PreferredLanguageChoice | frontend/src/stores/workspace.ts:101-105 | with non-empty, distinct languages: no language is chosen iff the group has none; 'default' is chosen iff it is the only one; otherwise the first non-default language is chosen |
| WorkspaceStore.DeleteAllLookup | frontend/src/stores/workspace.ts:152-154 | after deleting paths, exactly those paths are gone and every other entry keeps its data |
| WorkspaceStore.DistinctSuffix | frontend/src/stores/workspace.ts:144-145 | shifting ids off the front of the loaded list keeps it distinct |
| WorkspaceStore.DeleteAllConcat | frontend/src/stores/workspace.ts:144-157 | deleting two lists of paths one after the other is deleting their concatenation |
| WorkspaceStore.DeleteAllAppend | frontend/src/stores/workspace.ts:152-154 | deleting one more path extends the deletion by that path |
| WorkspaceStore.Workspace.constructor | frontend/src/stores/workspace.ts:51-61 | the initial state: no root, no groups, nothing active, the dashboard view, an empty cache, nothing loaded, not scanning, no error |
| WorkspaceStore.Workspace.SetProjectRoot | frontend/src/stores/workspace.ts:67-78 | the root is set; a falsy root also clears the groups, the active group and language, the cache and the loaded list |
| WorkspaceStore.Workspace.SetWorkspaceScan | frontend/src/stores/workspace.ts:80-91 | the root and the groups by id are set, scanning ends without error, and the first scanned group becomes active only when none is |
| WorkspaceStore.Workspace.SetActiveGroup | frontend/src/stores/workspace.ts:93-110 | the active group is set; a known group selects its preferred language, an unknown one keeps the language, a falsy id clears it |
| WorkspaceStore.Workspace.SetActiveLanguage | frontend/src/stores/workspace.ts:112-115 | only the active language changes |
| WorkspaceStore.Workspace.SetViewMode | frontend/src/stores/workspace.ts:117-120 | only the view mode changes |
| WorkspaceStore.Workspace.SetScanning | frontend/src/stores/workspace.ts:230-233 | only the scanning flag changes |
| WorkspaceStore.Workspace.SetScanError | frontend/src/stores/workspace.ts:235-239 | the error is recorded and scanning ends |
| WorkspaceStore.Workspace.CacheFileData | frontend/src/stores/workspace.ts:122-125 | the cache maps the path to the data, keeping distinct keys |
| WorkspaceStore.Workspace.GetFileData | frontend/src/stores/workspace.ts:127-129 | the lookup finds data exactly when the path is cached, and the data is the cached entry |
| WorkspaceStore.FindLoaded | frontend/src/stores/workspace.ts:134 | the scan stops at the id's first position, or gives -1 when it is absent, as indexOf does |
| WorkspaceStore.Workspace.SpliceLoaded | frontend/src/stores/workspace.ts:134-138 | the id's first occurrence is spliced out of the loaded list, which removes it altogether |
| WorkspaceStore.Workspace.MarkGroupLoaded | frontend/src/stores/workspace.ts:131-140 | the id moves to, or joins, the end of the loaded list and appears there once |
| WorkspaceStore.DeleteFilePaths | frontend/src/stores/workspace.ts:151-153 | deleting each file's path in turn leaves the cache without exactly those paths |
| WorkspaceStore.EvictFromCache | frontend/src/stores/workspace.ts:144-157 | the loop shifts exactly the overflow beyond ten ids, and deletes the files of each shifted id's group that still exists |
| WorkspaceStore.Workspace.EvictOldGroups | frontend/src/stores/workspace.ts:142-158 | the loop shifts off ids until ten remain, and the cache loses exactly the files of the shifted groups that still exist |
| WorkspaceStore.Workspace.AddGroup | frontend/src/stores/workspace.ts:160-163 | the group is set under its id, keeping distinct keys |
| WorkspaceStore.Workspace.RemoveGroup | frontend/src/stores/workspace.ts:165-190 | an unknown id changes nothing; otherwise the group, its files' cached data and its loaded entry go, and an active group is replaced by the first remaining key or by none |
| WorkspaceStore.Workspace.AddFileToGroup | frontend/src/stores/workspace.ts:201-211 | a known group gets the file under the language, and as its source file for 'default'; an unknown group changes nothing |
| WorkspaceStore.DropFile | frontend/src/stores/workspace.ts:215-227 | a known group loses the language's file, and its source file for 'default', and the cache that file's data; an unknown group changes nothing; keys stay distinct |
| WorkspaceStore.Workspace.RemoveFileFromGroup | frontend/src/stores/workspace.ts:213-228 | a known group loses the language's file and its cached data, and its source file for 'default'; the group stays even when emptied |
| WorkspaceStore.Workspace.SelectActiveGroup | frontend/src/stores/workspace.ts:246-247 | a group is returned only for a set active id, as that id's entry, and always when the id is a key |
| WorkspaceStore.Workspace.SelectActiveFile | frontend/src/stores/workspace.ts:249-259 | data comes back exactly when the active group, the active language, its file and that file's cache entry all exist, and it is that cache entry |
| UiStore.ClampSidebarWidth | frontend/src/stores/ui.ts:92-94 | the width always lands in [200, 500], is kept when already inside, and is clamped to the nearer bound otherwise |
| UiStore.SpaceRun | frontend/src/stores/ui.ts:116 | a run of exactly n spaces |
| UiStore.IndentString | frontend/src/stores/ui.ts:112-117 | tabs indent with one tab; spaces indent with indentSize spaces |
| UiStore.NotificationIds | frontend/src/stores/ui.ts:141 | the ids of the notifications, one per notification, in order |
| UiStore.MergeSettingsKeys | frontend/src/stores/ui.ts:105-106 | merging sets exactly the given keys and keeps the others; an empty update changes nothing, and merging twice is merging once |
| UiStore.WithoutNotificationShape | frontend/src/stores/ui.ts:140-145 | an unknown id changes nothing; otherwise the first notification with that id, and only it, is removed, and the others keep their order |
| UiStore.AddThenRemove | frontend/src/stores/ui.ts:127-145 | a notification added with a fresh id is removed again by that id, restoring the list |
| UiStore.Ui.constructor | frontend/src/stores/ui.ts:59-75 | the initial state: sidebar open and 280 wide, the system theme resolved as light, tab indentation of size 4, no dialog, no notifications, not loading |
| UiStore.Ui.ToggleSidebar | frontend/src/stores/ui.ts:84-86 | the collapsed flag flips and nothing else changes |
| UiStore.Ui.SetSidebarCollapsed | frontend/src/stores/ui.ts:88-90 | only the collapsed flag changes |
| UiStore.Ui.SetSidebarWidth | frontend/src/stores/ui.ts:92-94 | only the width changes, to the clamped value |
| UiStore.Ui.SetTheme | frontend/src/stores/ui.ts:96-99 | the theme and the settings' theme both become the new theme |
| UiStore.Ui.SetResolvedTheme | frontend/src/stores/ui.ts:101-103 | only the resolved theme changes |
| UiStore.Ui.UpdateSettings | frontend/src/stores/ui.ts:105-110 | the settings take the given keys, and a given theme is mirrored into the top-level theme |
| UiStore.Ui.GetIndentString | frontend/src/stores/ui.ts:112-117 | the indentation follows the current settings and is a tab or spaces only |
| UiStore.Ui.OpenDialog | frontend/src/stores/ui.ts:119-121 | the dialog of that type is open with the given props, and nothing else changes |
| UiStore.Ui.CloseDialog | frontend/src/stores/ui.ts:123-125 | no dialog is open |
| UiStore.Ui.AddNotification | frontend/src/stores/ui.ts:127-138 | exactly one notification is appended, carrying the given id and content |
| UiStore.FindNotification | frontend/src/stores/ui.ts:141 | `findIndex` gives the position of the first notification with the id, or -1 exactly when none has it |
| UiStore.Ui.RemoveNotification | frontend/src/stores/ui.ts:140-145 | the notifications lose the first entry with that id, if any |
| UiStore.Ui.ClearNotifications | frontend/src/stores/ui.ts:147-149 | no notifications remain |
| UiStore.Ui.SetLoading | frontend/src/stores/ui.ts:151-154 | the loading flag and message are set and nothing else changes |
| UiStore.Ui.Reset | frontend/src/stores/ui.ts:156-162 | the initial state, keeping the settings, the theme and the sidebar width |
| HistoryStore.DescribeChanges | frontend/src/stores/history.ts:37-59 | the description is empty exactly when there are no changes |
| HistoryStore.FieldSetSingleton | frontend/src/stores/history.ts:52-53 | the Set of fields has one element exactly when every change edits the first change's field |
| HistoryStore.DescribeChangesCases | frontend/src/stores/history.ts:40-58 | one change is described by its field (rename, source or translation edit); several changes of one field read "Edit <field> for <n> units"; mixed fields read "Edit <n> changes" |
| HistoryStore.KeepNewest | frontend/src/stores/history.ts:84-86 | shifting keeps the newest entries, at most the limit, as a suffix of the stack |
| HistoryStore.PushedShape | frontend/src/stores/history.ts:65-90 | after a push the entry is on top of the file's undo stack, the stack holds at most fifty entries and is the old one plus the entry minus the oldest overflow, the redo stack is empty, and other files keep their stacks |
| HistoryStore.PushedBounded | frontend/src/stores/history.ts:84-86 | pushing keeps every undo stack at fifty entries or fewer |
| HistoryStore.UndoneBounded | frontend/src/stores/history.ts:92-126 | undo and redo keep the fifty-entry bound |
| HistoryStore.StackSizes | frontend/src/stores/history.ts:128-173 | undo (redo) is possible exactly when its stack size is positive; an unknown file has empty stacks; undo moves one entry from the undo to the redo stack and redo the reverse |
| HistoryStore.UndoThenRedo | frontend/src/stores/history.ts:92-126 | undo then redo restores both stacks exactly, and redo returns the entry undo returned |
| HistoryStore.RedoThenUndo | frontend/src/stores/history.ts:92-126 | redo then undo restores both stacks exactly, and undo returns the entry redo returned |
| HistoryStore.UndoRedoLocal | frontend/src/stores/history.ts:92-126 | undo and redo on one file leave every other file's stacks alone |
| HistoryStore.PushedDescription | frontend/src/stores/history.ts:138-150 | right after a push the undo tooltip describes the pushed changes and there is no redo tooltip |
| HistoryStore.History.constructor | frontend/src/stores/history.ts:63 | the history starts empty |
| HistoryStore.History.PushEntry | frontend/src/stores/history.ts:65-90 | an empty change list changes nothing; otherwise the entry is pushed on the file's stacks |
| HistoryStore.History.Undo | frontend/src/stores/history.ts:92-108 | the returned entry is the top of the undo stack (none when it is empty) and it moves to the redo stack |
| HistoryStore.History.Redo | frontend/src/stores/history.ts:110-126 | the returned entry is the top of the redo stack (none when it is empty) and it moves to the undo stack |
| HistoryStore.History.ClearHistory | frontend/src/stores/history.ts:152-158 | a given path loses its stacks and every other path keeps its own; no path, or an empty one, clears everything |
| HistoryStore.History.Reset | frontend/src/stores/history.ts:160 | the history is empty |
| UseHistory.Reversed | frontend/src/hooks/useHistory.ts:115-121 | a change read backwards swaps the old and new values and keeps the unit, the field and the time |
| UseHistory.Oriented | frontend/src/hooks/useHistory.ts:35-57 | undo writes each change's oldValue and redo its newValue, change by change |
| UseHistory.ChangesFor | frontend/src/hooks/useHistory.ts:28-54 | the changes kept are exactly those recorded for the unit's id |
| UseHistory.AppliedUnits | frontend/src/hooks/useHistory.ts:27-47 | the units keep their length and order; each is that unit with its own changes applied |
| UseHistory.AppliedXliffFile | frontend/src/hooks/useHistory.ts:53-67 | a file of the copied document keeps its languages and number of units; each unit gets its own changes |
| UseHistory.AppliedDocument | frontend/src/hooks/useHistory.ts:50-68 | the copied document keeps its version and number of files; each file gets the changes |
| UseHistory.LastFieldChange | frontend/src/hooks/useHistory.ts:34-44 | the last change to a field is one of the changes and names that field; there is none exactly when no change names it |
| UseHistory.LastChangeWins | frontend/src/hooks/useHistory.ts:34-44 | changes are written in list order, so a field ends with the value of its last change and a field no change names is untouched |
| UseHistory.LastFieldChangeOriented | frontend/src/hooks/useHistory.ts:35 | reading the changes backwards reads the last change to each field backwards |
| UseHistory.AppliedUnitField | frontend/src/hooks/useHistory.ts:27-47 | each field of an applied unit is the oldValue (undo) or newValue (redo) of the last change to it among the unit's changes, or is untouched |
| UseHistory.RedoThenUndoUnit | frontend/src/hooks/useHistory.ts:103-160 | redo then undo of an entry without renames, recorded against a unit, gives the unit back |
| UseHistory.UndoThenRedoUnit | frontend/src/hooks/useHistory.ts:103-160 | undo then redo of an entry without renames gives back the unit that holds what the entry wrote |
| UseHistory.RedoThenUndoUnits | frontend/src/hooks/useHistory.ts:27-47 | on the whole unit list, undo after redo restores every unit |
| UseHistory.UndoMissesRenamedUnit | frontend/src/hooks/useHistory.ts:27-47 | undo matches changes by the id they were recorded under, so after a redone rename from "a" to "b" the undo leaves the unit named "b" |
| UseHistory.AppliedDocumentMatchesUnits | frontend/src/hooks/useHistory.ts:27-68 | the document copy and the unit list get the same writes: each document unit, seen as an editor unit, is the applied editor unit |
| UseHistory.FlattenMembers | frontend/src/hooks/useHistory.ts:86-91 | a change is in the flattened list exactly when some unit entry of the file holds it |
| UseHistory.Retracked | frontend/src/hooks/useHistory.ts:115-150 | the changes handed to trackChange are swapped for undo and kept for redo, all stamped with the current time |
| UseHistory.TrackAll | frontend/src/hooks/useHistory.ts:115-122 | re-tracking change by change keeps the editor store's invariant |
| UseHistory.TrackAllOtherFiles | frontend/src/hooks/useHistory.ts:115-122 | re-tracking one file's changes leaves the other files' pending changes alone |
| UseHistory.ApplyToUnit | frontend/src/hooks/useHistory.ts:32-46 | the loop over one unit's changes writes them in order, oriented for undo or redo |
| UseHistory.ApplyToUnits | frontend/src/hooks/useHistory.ts:27-47 | the map over the units computes the applied unit list |
| UseHistory.ApplyToXliffUnit | frontend/src/hooks/useHistory.ts:53-65 | one xliff unit's filtered changes are written in order, oriented for undo or redo |
| UseHistory.ApplyToXliffFile | frontend/src/hooks/useHistory.ts:52-66 | every unit of one file of the copy is replaced by its applied unit, in place |
| UseHistory.ApplyToDocument | frontend/src/hooks/useHistory.ts:49-67 | the loop over the copied document's files computes the applied document |
| UseHistory.ApplyChanges | frontend/src/hooks/useHistory.ts:21-77 | an uncached file changes nothing; otherwise its cache entry gets the applied units and document, and nothing else in the store changes |
| UseHistory.FlattenChanges | frontend/src/hooks/useHistory.ts:86-91 | the loop concatenates the unit entries' changes in map order |
| UseHistory.CommitChanges | frontend/src/hooks/useHistory.ts:80-100 | a file without pending changes changes nothing; otherwise its flattened changes become a history entry and its pending changes are dropped |
| UseHistory.TrackChanges | frontend/src/hooks/useHistory.ts:115-151 | the loop tracks the changes one after another, keeping the invariant |
| UseHistory.TakeEntry | frontend/src/hooks/useHistory.ts:105-109 | with nothing to undo (redo) there is no entry and the stacks stay; otherwise the top entry comes back and moves to the other stack |
| UseHistory.PerformStep | frontend/src/hooks/useHistory.ts:103-160 | with nothing to undo (redo) nothing changes but the stacks stay; otherwise the top entry moves stacks, its changes are applied to the cached file backwards (forwards), re-tracked as pending, and a two-second "Undo" ("Redo") notice is added |
| PersistenceStore.Paths | frontend/src/stores/persistence.ts:42 | the paths of the recent workspaces, one per entry, in order |
| PersistenceStore.PathIndex | frontend/src/stores/persistence.ts:42-64 | the index of the first entry with the path, or -1 exactly when no entry has it |
| PersistenceStore.KeepFirst | frontend/src/stores/persistence.ts:57-59 | popping keeps the first entries, at most the limit, as a prefix of the list |
| PersistenceStore.RemovedSubsequence | frontend/src/stores/persistence.ts:64-68 | removing an entry keeps the others in their order, and an unknown path changes nothing |
| PersistenceStore.RemovedDistinct | frontend/src/stores/persistence.ts:64-68 | with distinct paths, the removed path is gone, the paths stay distinct, and every other entry stays |
| PersistenceStore.AddedShape | frontend/src/stores/persistence.ts:39-60 | the added workspace is first, the list keeps distinct paths and at most ten entries, and the rest is the old list without that path, in order, cut from the end |
| PersistenceStore.AddedLength | frontend/src/stores/persistence.ts:39-60 | an existing path moves to the front without growing the list; a new one grows it by one unless it is already full |
| PersistenceStore.Persistence.constructor | frontend/src/stores/persistence.ts:27-32 | no recent workspaces and no last session |
| PersistenceStore.Persistence.AddRecentWorkspace | frontend/src/stores/persistence.ts:39-60 | the list becomes the added one, keeping distinct paths and the limit, and the last session stays |
| PersistenceStore.Persistence.RemoveRecentWorkspace | frontend/src/stores/persistence.ts:62-76 | the entry goes; the last session is forgotten exactly when it was that workspace |
| PersistenceStore.Persistence.ClearRecentWorkspaces | frontend/src/stores/persistence.ts:78-81 | the list is empty and the last session stays |
| PersistenceStore.Persistence.UpdateLastSession | frontend/src/stores/persistence.ts:83-92 | the workspace is set; the group and language are set when given (null included) and kept when undefined |
| PersistenceStore.Persistence.Reset | frontend/src/stores/persistence.ts:94 | the initial state |
| UseSync.IdsAbsentFromMembers | frontend/src/hooks/useSync.ts:200-206 | an id is listed as added (removed) exactly when a unit of the one file carries it and the other file has no unit with it, in the units' order |
| UseSync.ModifiedIdsMembers | frontend/src/hooks/useSync.ts:208-213 | an id is modified exactly when a source unit with it has a first namesake in the target with a different source text; modified ids are target ids, in source order |
| UseSync.AddedNotModified | frontend/src/hooks/useSync.ts:193-216 | no id is both added and modified |
| UseSync.NeedsSyncIff | frontend/src/hooks/useSync.ts:219-225 | no sync is needed exactly when both files have the same ids and every source unit's first namesake in the target has the same source text |
| UseSync.DetectChangesExample | frontend/src/hooks/useSync.ts:193-216 | a target missing "b", with an extra "d" and a changed source for "c", gives added ["b"], removed ["d"], modified ["c"] |
| UseSync.Sync.constructor | frontend/src/hooks/useSync.ts:49-58 | idle, no progress, no files, no error, no last sync, an empty queue, auto-sync as given |
| UseSync.Sync.QueueOperation | frontend/src/hooks/useSync.ts:61-84 | the operation is appended to the queue and the pending list, the state is pending, and its files join the affected ones once each, after the old ones |
| UseSync.Sync.Drain | frontend/src/hooks/useSync.ts:90-100 | the queued operations are handed over and the queue and pending list emptied; the state is syncing at progress 0 over the distinct files those operations affect |
| UseSync.Sync.PerformSync | frontend/src/hooks/useSync.ts:87-144 | an empty queue changes nothing; otherwise the queue is drained and delivered, and the state ends synced with progress 100 and the time, or in error with the thrown message or "Sync failed" |
| UseSync.Sync.SettleAfterSync | frontend/src/hooks/useSync.ts:118-124 | the timer returns the state to idle with no progress and keeps the rest |
| UseSync.Sync.ClearSync | frontend/src/hooks/useSync.ts:147-155 | the queue is empty, nothing is pending and the state is idle and empty |
| UseSync.Sync.ToggleAutoSync | frontend/src/hooks/useSync.ts:158-160 | the auto-sync flag flips and nothing else changes |
| UseSync.Sync.UpdateProgress | frontend/src/hooks/useSync.ts:163-168 | only the progress changes |
| SortUnits.UnitOrdersTotal | frontend/src/utils/sort.ts:9-13 | comparing units by id or by source text under a total preorder on strings is again a total preorder |
| SortUnits.SortUnits | frontend/src/utils/sort.ts:3-17 | the result is a permutation of the units; manual mode keeps the order, the other modes sort by id or by source text |
| SortUnits.SortUnitsStable | frontend/src/utils/sort.ts:6-14 | units with equal keys keep their relative order, as Array.prototype.sort guarantees |
| SortUnits.SortUnitsExamples | frontend/src/utils/__tests__/sort.test.ts:3-16 | the two units of the unit test come out as "a.key" then "b.key" by key, and "Apple" then "Zebra" by source |
| Dashboard.FileLanguages | frontend/src/utils/dashboard.ts:8-19 | the languages of a group's files, one per file, in order |
| Dashboard.AllLanguagesMembers | frontend/src/utils/dashboard.ts:8 | a language is listed exactly when some file of some group has it |
| Dashboard.LastNamed | frontend/src/utils/dashboard.ts:25 | the index of the last group with the base name, or -1 when there is none |
| Dashboard.BuildLanguageMatrix | frontend/src/utils/dashboard.ts:6-29 | the method's columns and rows are the matrix languages and the per-group status maps |
| Dashboard.BuildStatusRow | frontend/src/utils/dashboard.ts:18-23 | the loop over the languages builds the group's status map |
| Dashboard.MatrixLanguagesShape | frontend/src/utils/dashboard.ts:7-13 | the columns hold each language of the workspace exactly once, sorted with 'default' first and the rest by locale |
| Dashboard.StatusRowGet | frontend/src/utils/dashboard.ts:21-23 | a group's map has an entry exactly for the listed languages: present when the group has a file in it, missing otherwise |
| Dashboard.StatusRowKeys | frontend/src/utils/dashboard.ts:21-23 | with distinct languages the map's keys are the languages, in order |
| Dashboard.ByGroupGet | frontend/src/utils/dashboard.ts:17-26 | the row of a base name comes from the last group with that name, and a name no group has has no row |
| Dashboard.MatrixStatus | frontend/src/utils/dashboard.ts:6-29 | the row of a group lists every workspace language once, marks each present exactly when the group has a file in it, and has no other language |
| Dashboard.CollectMissingTranslations | frontend/src/utils/dashboard.ts:31-52 | the nested loops compute the missing entries |
| Dashboard.CollectUnits | frontend/src/utils/dashboard.ts:39-48 | the loop over one file's units computes its missing entries |
| Dashboard.UnitsMissingIsFilter | frontend/src/utils/dashboard.ts:39-48 | a file contributes one entry per unit with an empty or blank target, in unit order |
| Dashboard.FilterLast | frontend/src/utils/dashboard.ts:40 | the units kept are exactly those whose target is empty or blank |
| Dashboard.UnitsMissingMembers | frontend/src/utils/dashboard.ts:39-48 | an entry comes from one file exactly when some unit of it with a missing target describes it |
| Dashboard.CollectMissingMembers | frontend/src/utils/dashboard.ts:31-52 | the result holds an entry exactly when some file that is not source-only has a unit with a missing target that it describes, under the file's target language, else its language |
| Dashboard.TestAllLanguages | frontend/src/utils/__tests__/dashboard.test.ts:5-20 | the flattened languages of the test's groups are default, de, default, fr |
| Dashboard.TestLanguagesDeduplicated | frontend/src/utils/__tests__/dashboard.test.ts:40-42 | the Set of them is default, de, fr |
| Dashboard.TestDedupHead | frontend/src/utils/__tests__/dashboard.test.ts:40-42 | after the first two languages the Set holds default and de |
| Dashboard.TestDedupTail | frontend/src/utils/__tests__/dashboard.test.ts:40-42 | the repeated default is skipped and fr is added |
| Dashboard.TestLanguagesSorted | frontend/src/utils/__tests__/dashboard.test.ts:40-42 | the comparator leaves default, de, fr in place |
| Dashboard.TestMatrixLanguages | frontend/src/utils/__tests__/dashboard.test.ts:40-42 | the test's columns are default, de, fr |
| Dashboard.TestMatrixStatuses | frontend/src/utils/__tests__/dashboard.test.ts:40-45 | labels lacks fr and messages lacks de |
| Dashboard.TestStatusLabels | frontend/src/utils/__tests__/dashboard.test.ts:43 | the labels row comes from the first group and marks fr missing |
| Dashboard.TestStatusMessages | frontend/src/utils/__tests__/dashboard.test.ts:44 | the messages row comes from the second group and marks de missing |
| Dashboard.CollectMissingExample | frontend/src/utils/__tests__/dashboard.test.ts:47-57 | of the test's two files only the German one has an empty target, giving one entry for id "a" in language "de" |
| TranslationTable.FilteredUnits | frontend/src/components/TranslationTable.tsx:196-206 | the visible units are exactly those whose id, source or (outside source-only files) target contains the lower-cased query, in their order; an empty query keeps all |
| TranslationTable.TranslatedCount | frontend/src/components/TranslationTable.tsx:210-212 | no more units are translated than there are units |
| TranslationTable.RoundedPercent | frontend/src/components/TranslationTable.tsx:214 | the percentage is at most 100 and is the whole number nearest to 100k/n, a half rounding up |
| TranslationTable.TranslationProgress | frontend/src/components/TranslationTable.tsx:208-215 | a source-only file or an empty list reads 0; otherwise the rounded share of units with a non-blank target, at most 100 |
| TranslationTable.RoundedPercentBounds | frontend/src/components/TranslationTable.tsx:214 | everything translated reads 100, nothing translated reads 0, and more translated units never lower the figure |
| TranslationTable.ValueChanged | frontend/src/components/TranslationTable.tsx:219-244 | an unknown unit changes nothing; otherwise only that unit's entry changes, to the edited copy (of the pending one, else of the original), or is dropped when the copy equals the original |
| TranslationTable.ValueChangedKeepsNoneUnchanged | frontend/src/components/TranslationTable.tsx:227-243 | the edit map never holds an entry equal to its original unit |
| TranslationTable.WithFieldRestore | frontend/src/components/TranslationTable.tsx:225 | writing a field's original value back restores the unit |
| TranslationTable.WithFieldTwice | frontend/src/components/TranslationTable.tsx:225 | a second write to a field overrides the first |
| TranslationTable.EditThenRevert | frontend/src/components/TranslationTable.tsx:219-244 | typing a value and then the original back leaves no entry for the unit, and nothing else changes |
| TranslationTable.LastValueWins | frontend/src/components/TranslationTable.tsx:219-244 | after two edits of one field the map reads as after the second alone |
| TranslationTable.SaveCalls | frontend/src/components/TranslationTable.tsx:251-253 | one onSave call per entry, in map order, with the original id, the edited id and source, and the target ('' for a source-only file) |
| TranslationTable.SaveAllExample | frontend/src/components/__tests__/TranslationTableSave.test.tsx:26-33 | typing "Beispiel" into unit k's empty target and saving calls onSave('k', 'k', 'Hello', 'Beispiel') once |
| TranslationTable.ArrayMove | frontend/src/components/TranslationTable.tsx:278 | the moved list is a permutation of the same length with the moved element at its new index |
| TranslationTable.ArrayMoveBack | frontend/src/components/TranslationTable.tsx:278 | moving back undoes a move |
| TranslationTable.DragOrderTotal | frontend/src/components/TranslationTable.tsx:283-294 | the drag comparator is a total preorder, so the stable sort is well defined |
| TranslationTable.Reordered | frontend/src/components/TranslationTable.tsx:280-294 | the reordered list is a permutation of the units |
| TranslationTable.SameIdSameUnit | frontend/src/components/TranslationTable.tsx:284-285 | in a list with unique ids, two units with one id are the same unit |
| TranslationTable.IdsDistinctUnits | frontend/src/components/TranslationTable.tsx:280-294 | unique ids make the units distinct |
| TranslationTable.PartIds | frontend/src/components/TranslationTable.tsx:274-281 | the moved part has unique ids, and a unit's id is in it exactly when the unit passes the filter |
| TranslationTable.IndexOfDistinct | frontend/src/components/TranslationTable.tsx:284-285 | with unique ids, indexOf finds a unit's own position |
| TranslationTable.MovedFirstSorted | frontend/src/components/TranslationTable.tsx:283-294 | the moved part followed by the untouched units is sorted under the drag comparator |
| TranslationTable.DragEquivalence | frontend/src/components/TranslationTable.tsx:287-293 | under the comparator a moved unit is tied only with its own id, and all unmoved units are tied with each other |
| TranslationTable.MovedFirstEquivalents | frontend/src/components/TranslationTable.tsx:283-294 | tied units keep their relative order, so the stable sort's result is determined |
| TranslationTable.MovedEquivalents | frontend/src/components/TranslationTable.tsx:287-288 | a moved unit is tied only with itself |
| TranslationTable.UnmovedEquivalents | frontend/src/components/TranslationTable.tsx:290-293 | the unmoved units are all tied, so they keep their original order |
| TranslationTable.ReorderedIsMovedFirst | frontend/src/components/TranslationTable.tsx:280-294 | the sorted full list is the moved part in its new order, then the other units in their original order |
| TranslationTable.Table.constructor | frontend/src/components/TranslationTable.tsx:188-194 | no edits, not saving, no add dialog, empty fields, manual sort |
| TranslationTable.Table.HandleValueChange | frontend/src/components/TranslationTable.tsx:219-244 | the edit map becomes the changed one and nothing else changes |
| TranslationTable.Table.HandleSaveAll | frontend/src/components/TranslationTable.tsx:246-259 | no edits: no calls; otherwise one onSave per entry in order, then the map empties; when a call throws, the calls stop there and the map is kept; saving ends either way |
| TranslationTable.Table.HandleAddKey | frontend/src/components/TranslationTable.tsx:261-268 | onAddKey gets the trimmed id and source exactly when neither is blank, and then the dialog closes and its fields clear; otherwise nothing changes |
| TranslationTable.Table.HandleDragEnd | frontend/src/components/TranslationTable.tsx:270-300 | a reorder happens exactly when both ids differ and are visible; it is the full list sorted by the moved visible order, and the sort mode returns to manual |
| TranslationTable.Table.HandleApplySort | frontend/src/components/TranslationTable.tsx:302-305 | manual mode does nothing; otherwise onReorder gets the units sorted by the selected mode |
| TranslationTable.DragResult | frontend/src/components/TranslationTable.tsx:270-300 | a drag yields the moved visible units followed by the hidden ones in their original order, losing and duplicating nothing |
| LegacyTranslationTable.MatchesAgree | src/components/TranslationTable.tsx:324-333 | the older table's match test, with its one-element target list, agrees with the React table's for every unit, query and file kind |
| LegacyTranslationTable.FilteredUnits | src/components/TranslationTable.tsx:324-333 | the older table shows exactly the list the React table shows |
| LegacyTranslationTable.TranslationProgress | src/components/TranslationTable.tsx:335-341 | the older table's progress is the React table's figure, so at most 100 and the rounded share of translated units |
| LegacyTranslationTable.IsDirty | src/components/TranslationTable.tsx:442-450 | the row is dirty exactly when an edited unit is found and its id or source, or outside source-only files its target, differs from the edit values; with no edit it is clean |
| LegacyTranslationTable.EditStartsClean | src/components/TranslationTable.tsx:343-346 | a row is clean right after handleEdit, and changing any field it compares to a new value makes it dirty |
| LegacyTranslationTable.Table.constructor | src/components/TranslationTable.tsx:312-322 | nothing edited, empty edit values, no add dialog, empty fields, nothing saving or recently saved |
| LegacyTranslationTable.Table.HandleEdit | src/components/TranslationTable.tsx:343-346 | the unit becomes the edited one and its values are copied |
| LegacyTranslationTable.Table.ChangeEditValue | src/components/TranslationTable.tsx:345 | the edited field takes the typed value and the other fields stay |
| LegacyTranslationTable.Table.HandleSave | src/components/TranslationTable.tsx:348-361 | onSave is called exactly when a unit is being edited, with its original id and the edit values; after it returns the edit ends and the new id is recently saved; if it rejects, the unit stays edited and marked as saving |
| LegacyTranslationTable.Table.HandleCancel | src/components/TranslationTable.tsx:363-366 | the edit ends and the edit values are emptied |
| LegacyTranslationTable.Table.HandleAddKey | src/components/TranslationTable.tsx:368-375 | onAddKey gets the trimmed id and source exactly when neither is blank, and the dialog then closes and clears; otherwise nothing changes |
| LegacyTranslationTable.Table.HandleKeyDown | src/components/TranslationTable.tsx:412-434 | Escape cancels an edit and closes and clears the add dialog, touching nothing else (no saving state, an idle edit and a closed dialog stay); Cmd/Ctrl with "s" or Enter saves exactly when a unit is being edited, with handleSave's outcome: a resolved save ends the edit and marks the saved id, a rejected one leaves the unit saving; other keys change nothing |
| LegacyTranslationTable.Table.HandleDragEnd | src/components/TranslationTable.tsx:377-410 | the same guards and the same reorder as the React table: both ids differ and are visible, and the full list is sorted by the moved visible order |
| LegacyApp.SplitGroupKey | src/App.tsx:76-88 | the group key `${directory}/${baseName}`, split at its last '/', gives back the directory and the base name when the base name has no '/' |
| LegacyApp.FirstOccurrence | src/App.tsx:90-91 | `String.replace` with a string pattern acts at the first place the pattern occurs: a real occurrence, at 0 when the string starts with it, -1 when absent |
| LegacyApp.DisplayNameUnderFolder | src/App.tsx:90-95 | a group directly in the opened folder shows its bare base name; one in a sub-directory shows `sub/baseName` |
| LegacyApp.AfterLastBaseName | src/App.tsx:341 | `split('/').pop()` of a display name gives back the base name, with or without a directory prefix |
| LegacyApp.GroupedWellFormed | src/App.tsx:74-83 | the groups Map has unique keys and no key holds an empty list |
| LegacyApp.GroupedContents | src/App.tsx:74-83 | each key holds exactly the loaded files with that group key, in load order |
| LegacyApp.GroupedStep | src/App.tsx:79-82 | one `push` keeps each key's list equal to the files with that key |
| LegacyApp.GroupedPush | src/App.tsx:79-82 | one `push` grows the key's list by the last file exactly when the file has that key |
| LegacyApp.GroupedKeys | src/App.tsx:74-83 | a key is in the Map exactly when some loaded file has it |
| LegacyApp.PushFile | src/App.tsx:75-82 | one iteration appends the file to its key's list; a new key joins the Map with just that file, an existing key keeps its place |
| LegacyApp.GroupFiles | src/App.tsx:74-83 | the forEach with `has`/`set`/`get().push` builds the grouping Map |
| LegacyApp.OrdersTotal | src/App.tsx:99-106 | the 'default'-first file order and the display-name group order are total preorders whenever the language comparison is |
| LegacyApp.GroupEntries | src/App.tsx:85-105 | `Array.from(groups.entries()).map(...)` turns each entry into its group, in entry order |
| LegacyApp.FolderGroupsShape | src/App.tsx:74-106 | the file tree is sorted by display name, has one group per key, each group is non-empty, sorted 'default' first and holds exactly its key's files; every loaded file sits in the group named after its key |
| LegacyApp.FolderGroupMembers | src/App.tsx:85-105 | every group of the tree is sorted, non-empty and a permutation of one key's files |
| LegacyApp.FolderGroupsCover | src/App.tsx:74-106 | every loaded file is in the group whose display name comes from its key |
| LegacyApp.LoadedFilesHaveData | src/App.tsx:58-72 | every file in the tree has its data in the map, and the map's keys are exactly the loaded files' paths, each once |
| LegacyApp.LoadScanned | src/App.tsx:58-72 | the loop over the scan puts each file that loaded into the map and into the file list with its parsed name |
| LegacyApp.XliffIds | src/App.tsx:138-140 | the ids of a document file's units, position by position |
| LegacyApp.FirstFileWith | src/App.tsx:138-149 | the first file that holds the id, or -1 exactly when no file holds it |
| LegacyApp.SavedEveryMatch | src/App.tsx:153-155 | the reference write: every matching unit in every file takes the new values and nothing else changes |
| LegacyApp.SavedXliffUnits | src/App.tsx:153-155 | within one file, exactly the units with the old id take the new id, source and target |
| LegacyApp.SaveInCopy | src/App.tsx:135-149 | the walk over the deep copy with its found flag and two breaks rewrites only the first matching unit |
| LegacyApp.FirstMatchIsEveryMatch | src/App.tsx:136-155 | when the old id names one unit of the document, the first-match walk writes the same document as updating every match |
| LegacyApp.FirstMatchOnly | src/App.tsx:138-155 | with the id twice in one file, the written document keeps the second unit's old values while the unit list rewrites both |
| LegacyApp.SavedUnits | src/App.tsx:153-155 | every unit with the old id becomes `{newId, source, nextTarget}`; the others are kept, in place |
| LegacyApp.SavedUnitsIdempotent | src/App.tsx:153-155 | after a save under a new id no unit keeps the old id, and saving the same values again changes nothing |
| LegacyApp.SavedUnitsDistinct | src/App.tsx:153-155 | the ids stay distinct when the new id is the old one or not yet taken |
| LegacyApp.RenameOntoTakenId | src/App.tsx:153-155 | nothing stops a rename onto an id another unit already has: the list then holds the id twice |
| LegacyApp.ExtractAppend | src/hooks/useFileOperations.ts:71-77 | reading the unit list from two joined unit sequences is the join of the two readings |
| LegacyApp.SavedViewsAgree | src/App.tsx:136-162 | the document written by saving every match reads back as the unit list handleSave keeps, the source-only target rule included |
| LegacyApp.SavedEveryMatchInit | src/App.tsx:138-149 | the reference write on all files but the last is the write's prefix |
| LegacyApp.SavedExtract | src/App.tsx:136-155 | saving in a file's units and reading them back commute |
| LegacyApp.SavedAppend | src/App.tsx:153-155 | the save map distributes over joined unit lists |
| LegacyApp.DeletedXliff | src/App.tsx:179-181 | every file of the written document keeps only the units without the id |
| LegacyApp.DeleteInCopy | src/App.tsx:178-181 | the `for` loop reassigning each file's units writes that document |
| LegacyApp.ExtractFilter | src/App.tsx:180-185 | filtering by id and reading the editor's unit list commute |
| LegacyApp.DeletedViewsAgree | src/App.tsx:178-192 | the document handleDelete writes reads back as the unit list it keeps |
| LegacyApp.DeletedUnitsShape | src/App.tsx:185 | after a delete no unit has the id, the rest is a subsequence, and every unit with another id is kept |
| LegacyApp.ClearedUnits | src/App.tsx:219-221 | exactly the units with the id get an empty target; all else is kept |
| LegacyApp.ClearedXliffUnits | src/App.tsx:206-212 | within one file exactly the matching units get an empty target |
| LegacyApp.ClearedXliff | src/App.tsx:205-213 | every file of the document has its matching units cleared |
| LegacyApp.ClearInCopy | src/App.tsx:202-215 | the forEach writes the cleared document and raises `changed` exactly when some file holds the id |
| LegacyApp.ClearedUnitsShape | src/App.tsx:219-221 | clearing keeps the ids, empties exactly the matching targets, and a second clear changes nothing |
| LegacyApp.ClearedViewsAgree | src/App.tsx:202-228 | the document handleClearTranslation writes reads back as the unit list it keeps |
| LegacyApp.ClearedXliffInit | src/App.tsx:205-213 | clearing all files but the last is the prefix of clearing all |
| LegacyApp.ClearedExtract | src/App.tsx:206-221 | clearing a file's units and reading them back commute |
| LegacyApp.ClearedAppend | src/App.tsx:219-221 | the clear map distributes over joined unit lists |
| LegacyApp.AddedViewsAgree | src/App.tsx:248-259 | for a one-file document the written units read back as the kept list with the new unit at the end; a document without files gets no unit |
| LegacyApp.ToXliffUnits | src/App.tsx:291-301 | the table's `{id, source, target}` objects become document units with the same id, source and target |
| LegacyApp.ReorderedViewsAgree | src/App.tsx:297-310 | a one-file translation document written after a reorder reads back as the new order |
| LegacyApp.BlankTargets | src/App.tsx:358-360 | every unit keeps its id and source and gets an empty target |
| LegacyApp.FindGroup | src/App.tsx:318 | `find` returns a group with the selected display name, or none exactly when no group has it |
| LegacyApp.FindDefault | src/App.tsx:324-326 | `find` returns a file of the group whose language is 'default', or none exactly when the group has none |
| LegacyApp.NewFileNameParses | src/App.tsx:341-342 | the new file name `${code}.${base}.xlf` parses back to the language code and the base name |
| LegacyApp.NewLanguageJoinsGroup | src/App.tsx:335-343 | the new file lands in the default file's directory with its base name, so the next scan puts it in the same group under the new language |
| LegacyApp.NoSlashInFileName | src/App.tsx:342 | the new file name has no '/' when the base name has none |
| LegacyApp.NewLanguageDocumentShape | src/App.tsx:355-361 | the new document keeps the version and the first file's unit ids, sets the target language there and empties every target of that file; later files are copied unchanged |
| LegacyApp.OpenFolder | src/App.tsx:48-106 | a successful scan yields the loaded files' map with unique keys, the sorted file tree and the loaded files in scan order |
| LegacyApp.NewLanguagePlanCreates | src/App.tsx:316-363 | a file is created only with a folder and a selection, at a path that does not exist yet, holding the default file's document with blanked targets; without a group of that name nothing is created |
| LegacyApp.App.constructor | src/App.tsx:15-23 | no current file, an empty map and tree, no folder, the dialog closed with no selection |
| LegacyApp.App.HandleFileOpen | src/App.tsx:36-44 | a file that loads joins the map under its path and becomes current; a failed load changes nothing |
| LegacyApp.App.HandleFolderOpen | src/App.tsx:46-123 | a successful scan replaces the map and the tree, records the folder and makes the first loaded file current; a failed scan changes nothing |
| LegacyApp.App.SetOpenedFolder | src/App.tsx:108-114 | the map, tree, folder and current file take the computed values; the dialog state is kept |
| LegacyApp.App.HandleSave | src/App.tsx:125-165 | without a current file with data nothing happens; otherwise the first-match document is written and the map holds it with every matching unit saved, an empty target for source-only files |
| LegacyApp.App.HandleDelete | src/App.tsx:167-195 | only after confirmation and with data: every unit with the id leaves the unit list and every file of the written document |
| LegacyApp.App.HandleClearTranslation | src/App.tsx:197-231 | nothing for source-only files or when no document unit has the id; otherwise exactly the matching targets become empty in document and list |
| LegacyApp.App.HandleAddKey | src/App.tsx:233-269 | a duplicate id is reported and nothing is written; otherwise the unit goes to the end of the list and of the first document file, and distinct ids stay distinct |
| LegacyApp.App.HandleVersionChange | src/App.tsx:271-289 | the document and the file's data take the new version; nothing else in the map changes |
| LegacyApp.App.HandleReorder | src/App.tsx:291-313 | the new order replaces the unit list and the first file's units in the written document |
| LegacyApp.App.HandleNewLanguage | src/App.tsx:315-381 | the outcome is the plan's; nothing changes unless a file is created, and then the folder is rescanned, the new file becomes current and the dialog closes with its selection cleared |
| LegacyApp.App.SelectCreatedFile | src/App.tsx:366-368 | the new file becomes current and the dialog closes with its selection cleared; the map, tree and folder are kept |

## Left out

- Reading and writing files, XML parsing and serialisation, dialogs and notifications' text are not modelled. Parsed documents are inputs; writes are outputs.
- Concurrency: Promise chains, `loadGroup`'s `Promise.all`, the Go event loop's goroutine and the watcher's mutex are modelled as sequential steps. Interleavings are not modelled.
- Types.TranslationUnit: the editor's unit view keeps `id`, `source` and `target` only. The `note` and `state` fields that both loaders copy from the parsed unit (`frontend/src/hooks/useFileOperations.ts:78-79`, `frontend/src/hooks/useWorkspace.ts:84-85`) are not modelled: nothing in the core reads or edits them, and no frame here states that they are kept.
- `toLowerCase` lowers ASCII letters only; case mapping outside ASCII is not modelled.
- `localeCompare` is an arbitrary total preorder. Locale-specific collation is not modelled.
- `filepath.Clean`, `filepath.Rel` and path separators other than "/" are not modelled: paths are strings joined with "/".
- Timers are not modelled: the notification auto-removal, the auto-sync delay, the two-second settle after a sync, and the older table's 1200 ms recently-saved highlight. Their callbacks are separate methods.
- The workspace hook's `openWorkspace`, `closeWorkspace` and `saveAllFiles` are not modelled: they only sequence scan, watcher and save calls already covered here.
- Editor store: `setSortMode`, `setSearchQuery`, `setShowOnlyMissing` and `reset` are not modelled. Each only assigns one field.
- Workspace store: `updateGroupCoverage` and `reset` are not modelled. Coverage figures are not part of the model.
- UI store: `initializeTheme`, which reads the browser's colour scheme, and the persist middleware's `partialize` are not modelled.
- The persistence store's selectors and other one-line selectors are not modelled.
- Sync hook: the `onSyncStart` and `onSyncError` callbacks and the stale closure over `autoSyncEnabled` are not modelled.
- UseSync.Sync.PerformSync: the intermediate 'syncing' state is overwritten within the same call and is not observable in the model.
- The React table's keydown handler and its sort-mode selector are not modelled. The older table's `isSaving` flag is not modelled either.
- The conflict dialog's `onKeepLocal` and `onDismiss` callbacks are not modelled: they only close the dialog.
- Progress figures use `Math.round` on a real quotient. The model states the rounding as integer bounds, which leaves out floating-point error at .5 boundaries.
- UseHistory.RedoThenUndoUnit, UseHistory.UndoThenRedoUnit and UseHistory.RedoThenUndoUnits hold only for entries without renames: with a rename, undo does not restore the unit (see `UseHistory.UndoMissesRenamedUnit`).
- LegacyApp.OrdersTotal: when two 'default' files share a group, the older app's comparator is not consistent. The lemma states totality only, and the tree's order among such files is not pinned down.
- The older app's `handleDeleteFile` (confirm, delete, rescan) and its menu listeners are not modelled. The rescan is the modelled `HandleFolderOpen`.
- The derived `isSourceOnly`, `targetLanguage` and parsed metadata shown in the older app's header are not modelled.
- LegacyApp.NewLanguageDocumentShape: only the first file of a new language document gets the target language and blank targets, as in the source. Later files are copied unchanged.
- LegacyApp.AddedViewsAgree: the written document and the kept unit list are proved to agree only for one-file documents. A document with several files gets the new unit in its first file only.
- UseWorkspace.WorkspaceHook.SaveFile: a failed write leaves the path in the recently-saved list for good, as in the source, because the removal is scheduled only after a successful write.
- The workspace hook's own copy of the file-name parser (`frontend/src/hooks/useWorkspace.ts:20-32`) is the same function as the file-operations hook's, and is modelled once as `FileOperations.ParseT3FileName`.
