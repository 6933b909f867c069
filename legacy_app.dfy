/**
 * The older Tauri front end's application state (src/App.tsx): opening a
 * folder groups the loaded files by directory and base name; the unit-list
 * edits change both the editor's unit list and a copy of the parsed XLIFF
 * document that is written back; a new language file is named after the
 * group's 'default' file. Writing a file is a result of the handler (the
 * write's failure is reported by a message and changes no state); dialogs,
 * notifications and the existence check are parameters.
 */
module LegacyApp {
  import opened Common
  import opened Types
  import FileOperations
  import WorkspaceStore
  import Dashboard
  import GoWorkspace

  // ---------------------------------------------------------------------
  // Paths and group keys (handleFolderOpen)
  // ---------------------------------------------------------------------

  /** `path.substring(0, path.lastIndexOf("/"))`: "" when there is no '/'. */
  function DirectoryOf(path: string): string {
    var i := LastIndexOf(path, '/');
    if i == -1 then "" else path[..i]
  }

  /** `key.substring(key.lastIndexOf("/") + 1)`: the whole key without a '/'. */
  function BaseNameOfKey(key: string): string {
    key[LastIndexOf(key, '/') + 1..]
  }

  /** `${directory}/${file.baseName}` */
  function GroupKey(f: Dashboard.T3File): string {
    DirectoryOf(f.path) + "/" + f.baseName
  }

  /** Splitting a group key at its last '/' gives back the directory and the
      base name it was built from, as long as the base name has no '/'. */
  lemma SplitGroupKey(directory: string, baseName: string)
    requires '/' !in baseName
    ensures DirectoryOf(directory + "/" + baseName) == directory
    ensures BaseNameOfKey(directory + "/" + baseName) == baseName
  {
    var key := directory + "/" + baseName;
    var i := LastIndexOf(key, '/');
    assert key[|directory|] == '/';
    assert key[|directory| + 1..] == baseName;
  }

  /** Where `p` first occurs in `s`: 0 for the empty pattern, -1 when absent. */
  function FirstOccurrence(s: string, p: string): (r: int)
    ensures r == -1 || 0 <= r <= |s| - |p|
    ensures r >= 0 ==> s[r..r + |p|] == p
    ensures HasPrefix(s, p) ==> r == 0
    decreases |s|
  {
    if |s| < |p| then -1
    else if s[..|p|] == p then 0
    else
      var r := FirstOccurrence(s[1..], p);
      if r == -1 then -1
      else
        assert s[r + 1..r + 1 + |p|] == s[1..][r..r + |p|];
        r + 1
  }

  /** `s.replace(p, "")` with a string pattern: only the first occurrence goes. */
  function RemoveFirst(s: string, p: string): string {
    var i := FirstOccurrence(s, p);
    if i == -1 then s else s[..i] + s[i + |p|..]
  }

  /** `.replace(/^\//, "")` */
  function StripLeadingSlash(s: string): string {
    if |s| > 0 && s[0] == '/' then s[1..] else s
  }

  /** The group's display name: its directory relative to the opened folder,
      then its base name, or the base name alone at the folder's top. */
  function DisplayName(groupKey: string, folderPath: string): string {
    var baseName := BaseNameOfKey(groupKey);
    var relativePath := StripLeadingSlash(RemoveFirst(DirectoryOf(groupKey), folderPath));
    if relativePath != "" then relativePath + "/" + baseName else baseName
  }

  /** A group in the opened folder itself shows its base name; one in a
      sub-directory shows the sub-directory's path, then the base name. */
  lemma DisplayNameUnderFolder(folderPath: string, sub: string, baseName: string)
    requires '/' !in baseName
    ensures DisplayName(folderPath + "/" + baseName, folderPath) == baseName
    ensures sub != "" ==> DisplayName(folderPath + "/" + sub + "/" + baseName, folderPath) == sub + "/" + baseName
  {
    SplitGroupKey(folderPath, baseName);
    assert HasPrefix(folderPath, folderPath);
    assert RemoveFirst(folderPath, folderPath) == "";
    if sub != "" {
      var directory := folderPath + "/" + sub;
      SplitGroupKey(directory, baseName);
      assert HasPrefix(directory, folderPath);
      assert RemoveFirst(directory, folderPath) == "/" + sub;
    }
  }

  /** `split('/').pop()` gives the base name back from a display name. */
  lemma {:induction false} AfterLastBaseName(prefix: string, baseName: string)
    requires '/' !in baseName
    ensures AfterLast(prefix + "/" + baseName, '/') == baseName
    ensures AfterLast(baseName, '/') == baseName
    decreases |baseName|
  {
    if baseName != [] {
      var init := baseName[..|baseName| - 1];
      assert (prefix + "/" + baseName)[..|prefix + "/" + baseName| - 1] == prefix + "/" + init;
      AfterLastBaseName(prefix, init);
      assert init + [baseName[|baseName| - 1]] == baseName;
    } else {
      assert prefix + "/" + baseName == prefix + "/";
    }
  }

  // ---------------------------------------------------------------------
  // Grouping (handleFolderOpen)
  // ---------------------------------------------------------------------

  /** The test `groupKey(file) === k`. */
  function InGroup(k: string): Dashboard.T3File -> bool {
    f => GroupKey(f) == k
  }

  /** The `groups` Map after the forEach: each file pushed under its key. */
  function Grouped(files: seq<Dashboard.T3File>): seq<(string, seq<Dashboard.T3File>)> {
    if files == [] then []
    else
      var g := Grouped(files[..|files| - 1]);
      var f := files[|files| - 1];
      Put(g, GroupKey(f), GetOr(g, GroupKey(f), []) + [f])
  }

  /** The Map's keys are unique and no key holds an empty list. */
  lemma {:induction false} GroupedWellFormed(files: seq<Dashboard.T3File>)
    ensures UniqueKeys(Grouped(files))
    ensures forall e :: e in Grouped(files) ==> e.1 != []
  {
    if files != [] {
      var init := files[..|files| - 1];
      var f := files[|files| - 1];
      GroupedWellFormed(init);
      PutUnique(Grouped(init), GroupKey(f), GetOr(Grouped(init), GroupKey(f), []) + [f]);
    }
  }

  /** Each key holds exactly the files with that key, in their order. */
  lemma {:induction false} GroupedContents(files: seq<Dashboard.T3File>, k: string)
    ensures GetOr(Grouped(files), k, []) == Filter(files, InGroup(k))
  {
    if files != [] {
      GroupedContents(files[..|files| - 1], k);
      GroupedStep(files, k);
    }
  }

  /** One push: the key's list grows by the last file exactly when it has that key. */
  lemma GroupedStep(files: seq<Dashboard.T3File>, k: string)
    requires files != []
    requires GetOr(Grouped(files[..|files| - 1]), k, []) == Filter(files[..|files| - 1], InGroup(k))
    ensures GetOr(Grouped(files), k, []) == Filter(files, InGroup(k))
  {
    GroupedPush(files, k);
    FilterSnoc(files[..|files| - 1], files[|files| - 1], InGroup(k));
    LastSplit(files);
  }

  lemma GroupedPush(files: seq<Dashboard.T3File>, k: string)
    requires files != []
    ensures var f := files[|files| - 1];
      GetOr(Grouped(files), k, []) == GetOr(Grouped(files[..|files| - 1]), k, []) + if GroupKey(f) == k then [f] else []
  {
  }

  lemma LastSplit<T>(s: seq<T>)
    requires s != []
    ensures s[..|s| - 1] + [s[|s| - 1]] == s
  {
  }

  lemma FilterSnoc<T(!new)>(s: seq<T>, x: T, p: T -> bool)
    ensures Filter(s + [x], p) == Filter(s, p) + if p(x) then [x] else []
  {
    FilterAppend(s, [x], p);
    assert Filter([x], p) == if p(x) then [x] else [];
  }

  /** A key is in the Map exactly when some file has it. */
  lemma GroupedKeys(files: seq<Dashboard.T3File>, k: string)
    ensures k in Keys(Grouped(files)) <==> exists f :: f in files && GroupKey(f) == k
  {
    GroupedWellFormed(files);
    GroupedContents(files, k);
    var members := Filter(files, InGroup(k));
    if k in Keys(Grouped(files)) {
      assert (k, GetOr(Grouped(files), k, [])) in Grouped(files);
      assert members[0] in members;
    } else {
      forall f | f in files ensures GroupKey(f) != k {
      }
    }
  }

  /** The forEach over t3Files with `has`/`set`/`get().push`. */
  method GroupFiles(t3Files: seq<Dashboard.T3File>) returns (groups: seq<(string, seq<Dashboard.T3File>)>)
    ensures groups == Grouped(t3Files)
  {
    groups := [];
    for i := 0 to |t3Files|
      invariant groups == Grouped(t3Files[..i])
    {
      var prefix := t3Files[..i + 1];
      assert prefix[..i] == t3Files[..i] && prefix[i] == t3Files[i];
      groups := PushFile(groups, t3Files[i]);
      assert groups == Grouped(prefix);
    }
    assert t3Files[..|t3Files|] == t3Files;
  }

  /** One iteration of the forEach: a missing key is set to an empty list,
      then the file is pushed onto the key's list. */
  method PushFile(groups: seq<(string, seq<Dashboard.T3File>)>, file: Dashboard.T3File)
    returns (groups': seq<(string, seq<Dashboard.T3File>)>)
    ensures groups' == Put(groups, GroupKey(file), GetOr(groups, GroupKey(file), []) + [file])
  {
    var directory := DirectoryOf(file.path);
    var groupKey := directory + "/" + file.baseName;
    groups' := groups;
    if groupKey !in Keys(groups') {
      groups' := Put(groups', groupKey, []);
    }
    var members := Get(groups', groupKey).value;
    assert members == GetOr(groups, groupKey, []);
    PutPut(groups, groupKey, [], members + [file]);
    groups' := Put(groups', groupKey, members + [file]);
  }

  /** Within a group: 'default' first, the rest by language. */
  function FileOrder(le: (string, string) -> bool): (Dashboard.T3File, Dashboard.T3File) -> bool {
    (a: Dashboard.T3File, b: Dashboard.T3File) => WorkspaceStore.LanguageOrder(le)(a.language, b.language)
  }

  /** Groups by display name. */
  function DisplayOrder(le: (string, string) -> bool): (Dashboard.T3FileGroup, Dashboard.T3FileGroup) -> bool {
    (a: Dashboard.T3FileGroup, b: Dashboard.T3FileGroup) => le(a.baseName, b.baseName)
  }

  lemma OrdersTotal(le: (string, string) -> bool)
    requires TotalPreorder(le)
    ensures TotalPreorder(FileOrder(le))
    ensures TotalPreorder(DisplayOrder(le))
  {
    var order := FileOrder(le);
    var languages := WorkspaceStore.LanguageOrder(le);
    assert TotalPreorder(languages);
    forall a, b ensures order(a, b) || order(b, a) {
      assert order(a, b) == languages(a.language, b.language);
      assert order(b, a) == languages(b.language, a.language);
    }
    forall a, b, c | order(a, b) && order(b, c) ensures order(a, c) {
      assert languages(a.language, b.language) && languages(b.language, c.language);
    }
    var byName := DisplayOrder(le);
    forall a, b ensures byName(a, b) || byName(b, a) {
      assert le(a.baseName, b.baseName) || le(b.baseName, a.baseName);
    }
    forall a, b, c | byName(a, b) && byName(b, c) ensures byName(a, c) {
      assert le(a.baseName, b.baseName) && le(b.baseName, c.baseName);
    }
  }

  /** One entry of the groups Map as the `.map` shapes it. */
  function ToGroup(entry: (string, seq<Dashboard.T3File>), folderPath: string, le: (string, string) -> bool): Dashboard.T3FileGroup {
    Dashboard.T3FileGroup(DisplayName(entry.0, folderPath), SortBy(entry.1, FileOrder(le)))
  }

  /** `Array.from(groups.entries()).map(...)` */
  function GroupEntries(groups: seq<(string, seq<Dashboard.T3File>)>, folderPath: string, le: (string, string) -> bool): (r: seq<Dashboard.T3FileGroup>)
    ensures |r| == |groups|
    ensures forall i :: 0 <= i < |groups| ==> r[i] == ToGroup(groups[i], folderPath, le)
  {
    seq(|groups|, i requires 0 <= i < |groups| => ToGroup(groups[i], folderPath, le))
  }

  /** `....sort((a, b) => a.baseName.localeCompare(b.baseName))` */
  function GroupArray(groups: seq<(string, seq<Dashboard.T3File>)>, folderPath: string, le: (string, string) -> bool): seq<Dashboard.T3FileGroup> {
    SortBy(GroupEntries(groups, folderPath, le), DisplayOrder(le))
  }

  /** The file tree handleFolderOpen shows: one group per group key, sorted
      by display name, each holding exactly the files with that key, with
      'default' first; every loaded file is in the group named after its key. */
  lemma FolderGroupsShape(t3Files: seq<Dashboard.T3File>, folderPath: string, le: (string, string) -> bool)
    requires TotalPreorder(le)
    ensures var r := GroupArray(Grouped(t3Files), folderPath, le);
      && SortedBy(r, DisplayOrder(le))
      && |r| == |Keys(Grouped(t3Files))|
      && (forall g :: g in r ==>
            && SortedBy(g.files, FileOrder(le))
            && g.files != []
            && exists k :: k in Keys(Grouped(t3Files)) && g.baseName == DisplayName(k, folderPath)
                 && multiset(g.files) == multiset(Filter(t3Files, InGroup(k))))
      && (forall f :: f in t3Files ==>
            exists g :: g in r && f in g.files && g.baseName == DisplayName(GroupKey(f), folderPath))
  {
    OrdersTotal(le);
    SortBySorted(GroupEntries(Grouped(t3Files), folderPath, le), DisplayOrder(le));
    forall g | g in GroupArray(Grouped(t3Files), folderPath, le)
      ensures SortedBy(g.files, FileOrder(le)) && g.files != []
      ensures exists k :: k in Keys(Grouped(t3Files)) && g.baseName == DisplayName(k, folderPath)
                 && multiset(g.files) == multiset(Filter(t3Files, InGroup(k)))
    {
      FolderGroupMembers(t3Files, folderPath, le, g);
    }
    forall f | f in t3Files
      ensures exists g :: g in GroupArray(Grouped(t3Files), folderPath, le) && f in g.files
                         && g.baseName == DisplayName(GroupKey(f), folderPath)
    {
      FolderGroupsCover(t3Files, folderPath, le, f);
    }
  }

  lemma FolderGroupMembers(t3Files: seq<Dashboard.T3File>, folderPath: string, le: (string, string) -> bool, g: Dashboard.T3FileGroup)
    requires TotalPreorder(FileOrder(le))
    requires g in GroupArray(Grouped(t3Files), folderPath, le)
    ensures SortedBy(g.files, FileOrder(le)) && g.files != []
    ensures exists k :: k in Keys(Grouped(t3Files)) && g.baseName == DisplayName(k, folderPath)
                       && multiset(g.files) == multiset(Filter(t3Files, InGroup(k)))
  {
    var groups := Grouped(t3Files);
    var mapped := GroupEntries(groups, folderPath, le);
    assert g in multiset(mapped) by {
      assert g in multiset(GroupArray(groups, folderPath, le));
    }
    var i :| 0 <= i < |mapped| && mapped[i] == g;
    var k := groups[i].0;
    var members := groups[i].1;
    assert g.files == SortBy(members, FileOrder(le)) && g.baseName == DisplayName(k, folderPath);
    assert k in Keys(groups) by {
      assert Keys(groups)[i] == k;
    }
    assert members == Filter(t3Files, InGroup(k)) && members != [] by {
      GroupedWellFormed(t3Files);
      UniqueKeysIndex(groups, i);
      GroupedContents(t3Files, k);
      assert groups[i] in groups;
    }
    SortBySorted(members, FileOrder(le));
  }

  lemma FolderGroupsCover(t3Files: seq<Dashboard.T3File>, folderPath: string, le: (string, string) -> bool, f: Dashboard.T3File)
    requires f in t3Files
    ensures exists g :: g in GroupArray(Grouped(t3Files), folderPath, le) && f in g.files
                       && g.baseName == DisplayName(GroupKey(f), folderPath)
  {
    var groups := Grouped(t3Files);
    var mapped := GroupEntries(groups, folderPath, le);
    var k := GroupKey(f);
    var i :| 0 <= i < |groups| && Keys(groups)[i] == k by {
      GroupedKeys(t3Files, k);
    }
    assert f in multiset(groups[i].1) by {
      GroupedWellFormed(t3Files);
      UniqueKeysIndex(groups, i);
      GroupedContents(t3Files, k);
      assert f in Filter(t3Files, InGroup(k));
    }
    var g := mapped[i];
    assert g.baseName == DisplayName(k, folderPath);
    assert f in g.files by {
      assert f in multiset(g.files);
    }
    assert g in GroupArray(groups, folderPath, le) by {
      assert g in multiset(mapped);
      assert g in multiset(GroupArray(groups, folderPath, le));
    }
  }

  // ---------------------------------------------------------------------
  // Loading (handleFolderOpen's loop)
  // ---------------------------------------------------------------------

  /** A scanned `.xlf` file and what loadFile gave for it (None: it failed). */
  datatype ScannedFile = ScannedFile(name: string, path: string, loaded: Option<FileData>)

  function T3FileOf(s: ScannedFile): Dashboard.T3File {
    var parsed := FileOperations.ParseT3FileName(s.name);
    Dashboard.T3File(s.name, s.path, parsed.language, parsed.baseName)
  }

  /** The t3Files list: one entry per file that loaded, in scan order. */
  function LoadedFiles(scanned: seq<ScannedFile>): seq<Dashboard.T3File> {
    if scanned == [] then []
    else
      var init := LoadedFiles(scanned[..|scanned| - 1]);
      var s := scanned[|scanned| - 1];
      if s.loaded.Some? then init + [T3FileOf(s)] else init
  }

  /** The new fileDataMap: each loaded file's data under its path. */
  function LoadedMap(scanned: seq<ScannedFile>): seq<(string, FileData)> {
    if scanned == [] then []
    else
      var init := LoadedMap(scanned[..|scanned| - 1]);
      var s := scanned[|scanned| - 1];
      if s.loaded.Some? then Put(init, s.path, s.loaded.value) else init
  }

  /** Every file in the tree has its data in the map: the data of the last
      scanned file with that path, which loaded. */
  lemma {:induction false} LoadedFilesHaveData(scanned: seq<ScannedFile>)
    ensures UniqueKeys(LoadedMap(scanned))
    ensures forall f :: f in LoadedFiles(scanned) ==> f.path in Keys(LoadedMap(scanned))
    ensures forall p :: p in Keys(LoadedMap(scanned)) <==> exists f :: f in LoadedFiles(scanned) && f.path == p
  {
    if scanned != [] {
      var init := scanned[..|scanned| - 1];
      var s := scanned[|scanned| - 1];
      LoadedFilesHaveData(init);
      if s.loaded.Some? {
        PutUnique(LoadedMap(init), s.path, s.loaded.value);
        assert T3FileOf(s) in LoadedFiles(scanned);
      }
    }
  }

  /** handleFolderOpen's loop over the scan: each file that loaded goes into
      the map under its path and into the file list with its parsed name. */
  method LoadScanned(xliffFiles: seq<ScannedFile>) returns (newMap: seq<(string, FileData)>, t3Files: seq<Dashboard.T3File>)
    ensures newMap == LoadedMap(xliffFiles) && t3Files == LoadedFiles(xliffFiles)
  {
    newMap := [];
    t3Files := [];
    for i := 0 to |xliffFiles|
      invariant newMap == LoadedMap(xliffFiles[..i])
      invariant t3Files == LoadedFiles(xliffFiles[..i])
    {
      var file := xliffFiles[i];
      assert xliffFiles[..i + 1][..i] == xliffFiles[..i];
      var fileData := file.loaded;
      if fileData.Some? {
        newMap := Put(newMap, file.path, fileData.value);
        var parsed := FileOperations.ParseT3FileName(file.name);
        t3Files := t3Files + [Dashboard.T3File(file.name, file.path, parsed.language, parsed.baseName)];
      }
    }
    assert xliffFiles[..|xliffFiles|] == xliffFiles;
  }

  // ---------------------------------------------------------------------
  // handleSave
  // ---------------------------------------------------------------------

  /** The ids of a parsed unit list. */
  function XliffIds(us: seq<XliffUnit>): (r: seq<string>)
    ensures |r| == |us|
    ensures forall i :: 0 <= i < |us| ==> r[i] == us[i].id
  {
    seq(|us|, i requires 0 <= i < |us| => us[i].id)
  }

  /** The first file holding a unit with this id, or -1. */
  function FirstFileWith(files: seq<XliffFile>, id: string): (r: int)
    ensures -1 <= r < |files|
    ensures r == -1 <==> forall k :: 0 <= k < |files| ==> id !in XliffIds(files[k].units)
    ensures r >= 0 ==> id in XliffIds(files[r].units) && forall k :: 0 <= k < r ==> id !in XliffIds(files[k].units)
  {
    if files == [] then -1
    else if id in XliffIds(files[0].units) then 0
    else
      var r := FirstFileWith(files[1..], id);
      assert forall k :: 1 <= k < |files| ==> files[k] == files[1..][k - 1];
      if r == -1 then -1 else r + 1
  }

  /** The unit handleSave writes into the document. */
  function SavedXliffUnit(newId: string, source: string, nextTarget: string): XliffUnit {
    XliffUnit(newId, source, Some(nextTarget))
  }

  /** handleSave's walk over the copy: only the first unit with the old id,
      in the first file holding one, takes the new values. */
  function SavedFirstMatch(files: seq<XliffFile>, oldId: string, newId: string, source: string, nextTarget: string): seq<XliffFile> {
    var fi := FirstFileWith(files, oldId);
    if fi == -1 then files
    else
      var units := files[fi].units;
      var ui := IndexOf(XliffIds(units), oldId);
      files[fi := files[fi].(units := units[ui := SavedXliffUnit(newId, source, nextTarget)])]
  }

  /** The same write on every unit with the old id, in every file. */
  function SavedEveryMatch(files: seq<XliffFile>, oldId: string, newId: string, source: string, nextTarget: string): (r: seq<XliffFile>)
    ensures |r| == |files|
    ensures forall k :: 0 <= k < |files| ==> r[k] == files[k].(units := SavedXliffUnits(files[k].units, oldId, newId, source, nextTarget))
  {
    seq(|files|, k requires 0 <= k < |files| => files[k].(units := SavedXliffUnits(files[k].units, oldId, newId, source, nextTarget)))
  }

  function SavedXliffUnits(us: seq<XliffUnit>, oldId: string, newId: string, source: string, nextTarget: string): (r: seq<XliffUnit>)
    ensures |r| == |us|
    ensures forall j :: 0 <= j < |us| ==> r[j] == if us[j].id == oldId then SavedXliffUnit(newId, source, nextTarget) else us[j]
  {
    seq(|us|, j requires 0 <= j < |us| => if us[j].id == oldId then SavedXliffUnit(newId, source, nextTarget) else us[j])
  }

  /** With a found flag and two breaks: the loops over files and units. */
  method SaveInCopy(files: seq<XliffFile>, oldId: string, newId: string, source: string, nextTarget: string)
    returns (updated: seq<XliffFile>)
    ensures updated == SavedFirstMatch(files, oldId, newId, source, nextTarget)
  {
    updated := files;
    var found := false;
    var fi := 0;
    while fi < |updated|
      invariant 0 <= fi <= |files| && updated == files
      invariant forall k :: 0 <= k < fi ==> oldId !in XliffIds(files[k].units)
    {
      var units := updated[fi].units;
      var ui := 0;
      while ui < |units|
        invariant 0 <= ui <= |units| && units == files[fi].units
        invariant oldId !in XliffIds(units)[..ui]
      {
        if units[ui].id == oldId {
          assert IndexOf(XliffIds(units), oldId) == ui by {
            IndexOfFirst(XliffIds(units), oldId, ui);
          }
          units := units[ui := SavedXliffUnit(newId, source, nextTarget)];
          found := true;
          break;
        }
        assert XliffIds(units)[..ui + 1] == XliffIds(units)[..ui] + [units[ui].id];
        ui := ui + 1;
      }
      if found {
        updated := updated[fi := updated[fi].(units := units)];
        return;
      }
      assert XliffIds(units)[..ui] == XliffIds(units);
      fi := fi + 1;
    }
  }

  /** When the old id names a single unit of the document, the first-match
      walk writes the same document as updating every match. */
  lemma FirstMatchIsEveryMatch(files: seq<XliffFile>, oldId: string, newId: string, source: string, nextTarget: string)
    requires forall k, j :: 0 <= k < |files| && 0 <= j < |files[k].units| && files[k].units[j].id == oldId ==>
      k == FirstFileWith(files, oldId) && j == IndexOf(XliffIds(files[k].units), oldId)
    ensures SavedFirstMatch(files, oldId, newId, source, nextTarget) == SavedEveryMatch(files, oldId, newId, source, nextTarget)
  {
    var a := SavedFirstMatch(files, oldId, newId, source, nextTarget);
    var b := SavedEveryMatch(files, oldId, newId, source, nextTarget);
    var fi := FirstFileWith(files, oldId);
    forall k | 0 <= k < |files| ensures a[k] == b[k] {
      if k != fi {
        forall j | 0 <= j < |files[k].units| ensures files[k].units[j].id != oldId {
        }
        assert SavedXliffUnits(files[k].units, oldId, newId, source, nextTarget) == files[k].units;
      } else {
        var units := files[k].units;
        var ui := IndexOf(XliffIds(units), oldId);
        assert SavedXliffUnits(units, oldId, newId, source, nextTarget) == units[ui := SavedXliffUnit(newId, source, nextTarget)];
      }
    }
  }

  /** With the id twice in one file, the document keeps the second unit's
      old values while the unit list rewrites both. */
  lemma FirstMatchOnly()
    ensures var u := XliffUnit("a", "old", Some("x"));
      var files := [XliffFile(None, None, [u, u])];
      && SavedFirstMatch(files, "a", "a", "new", "y")[0].units == [SavedXliffUnit("a", "new", "y"), u]
      && SavedEveryMatch(files, "a", "a", "new", "y")[0].units == [SavedXliffUnit("a", "new", "y"), SavedXliffUnit("a", "new", "y")]
  {
    var u := XliffUnit("a", "old", Some("x"));
    var files := [XliffFile(None, None, [u, u])];
    assert XliffIds(files[0].units)[0] == "a";
    assert "a" in XliffIds(files[0].units);
  }

  // ---------------------------------------------------------------------
  // The unit list beside the document
  // ---------------------------------------------------------------------

  /** handleSave's `units.map`: every unit with the old id takes the new values. */
  function SavedUnits(units: seq<TranslationUnit>, oldId: string, newId: string, source: string, nextTarget: string): (r: seq<TranslationUnit>)
    ensures |r| == |units|
    ensures forall i :: 0 <= i < |units| ==> r[i] == if units[i].id == oldId then TranslationUnit(newId, source, nextTarget) else units[i]
  {
    seq(|units|, i requires 0 <= i < |units| => if units[i].id == oldId then TranslationUnit(newId, source, nextTarget) else units[i])
  }

  /** After a save under a new id no unit keeps the old one, and saving the
      same values again changes nothing. */
  lemma SavedUnitsIdempotent(units: seq<TranslationUnit>, oldId: string, newId: string, source: string, nextTarget: string)
    ensures var r := SavedUnits(units, oldId, newId, source, nextTarget);
      && (newId != oldId ==> oldId !in Ids(r))
      && SavedUnits(r, oldId, newId, source, nextTarget) == r
  {
    var r := SavedUnits(units, oldId, newId, source, nextTarget);
    if newId != oldId {
      forall i | 0 <= i < |r| ensures Ids(r)[i] != oldId {
      }
    }
  }

  /** The ids stay distinct when the new id is the old one or is not yet taken. */
  lemma SavedUnitsDistinct(units: seq<TranslationUnit>, oldId: string, newId: string, source: string, nextTarget: string)
    requires Distinct(Ids(units))
    requires newId == oldId || newId !in Ids(units)
    ensures Distinct(Ids(SavedUnits(units, oldId, newId, source, nextTarget)))
  {
    var r := SavedUnits(units, oldId, newId, source, nextTarget);
    forall i, j | 0 <= i < j < |r| ensures Ids(r)[i] != Ids(r)[j] {
      assert Ids(units)[i] != Ids(units)[j];
      if units[i].id != oldId && units[j].id == oldId && newId != oldId {
        assert Ids(units)[i] == units[i].id;
      }
      if units[i].id == oldId && units[j].id != oldId && newId != oldId {
        assert Ids(units)[j] == units[j].id;
      }
    }
  }

  /** Nothing stops a rename onto an id another unit already has. */
  lemma RenameOntoTakenId()
    ensures var units := [TranslationUnit("a", "A", ""), TranslationUnit("b", "B", "")];
      Ids(SavedUnits(units, "a", "b", "A", "")) == ["b", "b"]
  {
    var units := [TranslationUnit("a", "A", ""), TranslationUnit("b", "B", "")];
    var r := SavedUnits(units, "a", "b", "A", "");
    assert r[0].id == "b" && r[1].id == "b";
  }

  /** ExtractUnits of two lists joined. */
  lemma ExtractAppend(a: seq<XliffUnit>, b: seq<XliffUnit>, isSourceOnly: bool)
    ensures FileOperations.ExtractUnits(a + b, isSourceOnly)
      == FileOperations.ExtractUnits(a, isSourceOnly) + FileOperations.ExtractUnits(b, isSourceOnly)
  {
    var l := FileOperations.ExtractUnits(a + b, isSourceOnly);
    var r := FileOperations.ExtractUnits(a, isSourceOnly) + FileOperations.ExtractUnits(b, isSourceOnly);
    assert forall i :: 0 <= i < |l| ==> l[i] == r[i];
  }

  /** The document written by saving every match shows the unit list that
      handleSave keeps, the file's own target rule included. */
  lemma {:induction false} SavedViewsAgree(files: seq<XliffFile>, isSourceOnly: bool, oldId: string, newId: string, source: string, target: string)
    ensures var nextTarget := if isSourceOnly then "" else target;
      FileOperations.UnitsOf(SavedEveryMatch(files, oldId, newId, source, nextTarget), isSourceOnly)
        == SavedUnits(FileOperations.UnitsOf(files, isSourceOnly), oldId, newId, source, nextTarget)
  {
    var nextTarget := if isSourceOnly then "" else target;
    if files != [] {
      var init := files[..|files| - 1];
      var last := files[|files| - 1];
      SavedViewsAgree(init, isSourceOnly, oldId, newId, source, target);
      SavedEveryMatchInit(files, oldId, newId, source, nextTarget);
      SavedExtract(last.units, isSourceOnly, oldId, newId, source, nextTarget);
      SavedAppend(FileOperations.UnitsOf(init, isSourceOnly), FileOperations.ExtractUnits(last.units, isSourceOnly),
        oldId, newId, source, nextTarget);
    }
  }

  lemma SavedEveryMatchInit(files: seq<XliffFile>, oldId: string, newId: string, source: string, nextTarget: string)
    requires files != []
    ensures SavedEveryMatch(files, oldId, newId, source, nextTarget)[..|files| - 1]
      == SavedEveryMatch(files[..|files| - 1], oldId, newId, source, nextTarget)
  {
  }

  lemma SavedExtract(us: seq<XliffUnit>, isSourceOnly: bool, oldId: string, newId: string, source: string, nextTarget: string)
    requires isSourceOnly ==> nextTarget == ""
    ensures FileOperations.ExtractUnits(SavedXliffUnits(us, oldId, newId, source, nextTarget), isSourceOnly)
      == SavedUnits(FileOperations.ExtractUnits(us, isSourceOnly), oldId, newId, source, nextTarget)
  {
  }

  lemma SavedAppend(a: seq<TranslationUnit>, b: seq<TranslationUnit>, oldId: string, newId: string, source: string, nextTarget: string)
    ensures SavedUnits(a + b, oldId, newId, source, nextTarget)
      == SavedUnits(a, oldId, newId, source, nextTarget) + SavedUnits(b, oldId, newId, source, nextTarget)
  {
  }

  /** The test `unit.id !== id`, on either kind of unit. */
  function NotId(id: string): TranslationUnit -> bool {
    (u: TranslationUnit) => u.id != id
  }

  function XliffNotId(id: string): XliffUnit -> bool {
    (u: XliffUnit) => u.id != id
  }

  /** handleDelete's document: every file keeps only the units without the id. */
  function DeletedXliff(files: seq<XliffFile>, id: string): (r: seq<XliffFile>)
    ensures |r| == |files|
    ensures forall k :: 0 <= k < |files| ==> r[k] == files[k].(units := Filter(files[k].units, XliffNotId(id)))
  {
    seq(|files|, k requires 0 <= k < |files| => files[k].(units := Filter(files[k].units, XliffNotId(id))))
  }

  /** The `for` loop reassigning each file's units. */
  method DeleteInCopy(files: seq<XliffFile>, id: string) returns (updated: seq<XliffFile>)
    ensures updated == DeletedXliff(files, id)
  {
    updated := files;
    for k := 0 to |updated|
      invariant |updated| == |files|
      invariant forall j :: 0 <= j < k ==> updated[j] == files[j].(units := Filter(files[j].units, XliffNotId(id)))
      invariant forall j :: k <= j < |files| ==> updated[j] == files[j]
    {
      updated := updated[k := updated[k].(units := Filter(updated[k].units, XliffNotId(id)))];
    }
  }

  /** Filtering by id and extracting the editor's view commute. */
  lemma {:induction false} ExtractFilter(us: seq<XliffUnit>, isSourceOnly: bool, id: string)
    ensures FileOperations.ExtractUnits(Filter(us, XliffNotId(id)), isSourceOnly)
      == Filter(FileOperations.ExtractUnits(us, isSourceOnly), NotId(id))
  {
    if us != [] {
      var init := us[..|us| - 1];
      var u := us[|us| - 1];
      ExtractFilter(init, isSourceOnly, id);
      LastSplit(us);
      FilterSnoc(init, u, XliffNotId(id));
      FilterSnoc(FileOperations.ExtractUnits(init, isSourceOnly), FileOperations.ExtractUnit(u, isSourceOnly), NotId(id));
      ExtractAppend(Filter(init, XliffNotId(id)), [u], isSourceOnly);
    }
  }

  /** The document handleDelete writes shows the unit list it keeps. */
  lemma {:induction false} DeletedViewsAgree(files: seq<XliffFile>, isSourceOnly: bool, id: string)
    ensures FileOperations.UnitsOf(DeletedXliff(files, id), isSourceOnly)
      == Filter(FileOperations.UnitsOf(files, isSourceOnly), NotId(id))
  {
    if files != [] {
      var init := files[..|files| - 1];
      var last := files[|files| - 1];
      DeletedViewsAgree(init, isSourceOnly, id);
      var deleted := DeletedXliff(files, id);
      assert deleted[..|deleted| - 1] == DeletedXliff(init, id);
      ExtractFilter(last.units, isSourceOnly, id);
      FilterAppend(FileOperations.UnitsOf(init, isSourceOnly), FileOperations.ExtractUnits(last.units, isSourceOnly), NotId(id));
    }
  }

  /** After a delete no unit has the id, and every other unit stays, in order. */
  lemma DeletedUnitsShape(units: seq<TranslationUnit>, id: string)
    ensures var r := Filter(units, NotId(id));
      && id !in Ids(r)
      && Subsequence(r, units)
      && (forall u :: u in units && u.id != id ==> u in r)
  {
    var r := Filter(units, NotId(id));
    forall i | 0 <= i < |r| ensures Ids(r)[i] != id {
      assert r[i] in r;
    }
  }

  /** handleClearTranslation's `{ ...unit, target: "" }` on the matching units. */
  function ClearedUnits(units: seq<TranslationUnit>, id: string): (r: seq<TranslationUnit>)
    ensures |r| == |units|
    ensures forall i :: 0 <= i < |units| ==> r[i] == if units[i].id == id then units[i].(target := "") else units[i]
  {
    seq(|units|, i requires 0 <= i < |units| => if units[i].id == id then units[i].(target := "") else units[i])
  }

  function ClearedXliffUnits(us: seq<XliffUnit>, id: string): (r: seq<XliffUnit>)
    ensures |r| == |us|
    ensures forall j :: 0 <= j < |us| ==> r[j] == if us[j].id == id then us[j].(target := Some("")) else us[j]
  {
    seq(|us|, j requires 0 <= j < |us| => if us[j].id == id then us[j].(target := Some("")) else us[j])
  }

  function ClearedXliff(files: seq<XliffFile>, id: string): (r: seq<XliffFile>)
    ensures |r| == |files|
    ensures forall k :: 0 <= k < |files| ==> r[k] == files[k].(units := ClearedXliffUnits(files[k].units, id))
  {
    seq(|files|, k requires 0 <= k < |files| => files[k].(units := ClearedXliffUnits(files[k].units, id)))
  }

  /** The forEach over files, mapping units and raising `changed` on a match. */
  method ClearInCopy(files: seq<XliffFile>, id: string) returns (updated: seq<XliffFile>, changed: bool)
    ensures updated == ClearedXliff(files, id)
    ensures changed <==> FirstFileWith(files, id) != -1
  {
    updated := files;
    changed := false;
    for k := 0 to |updated|
      invariant |updated| == |files|
      invariant forall j :: 0 <= j < k ==> updated[j] == files[j].(units := ClearedXliffUnits(files[j].units, id))
      invariant forall j :: k <= j < |files| ==> updated[j] == files[j]
      invariant changed <==> exists j :: 0 <= j < k && id in XliffIds(files[j].units)
    {
      if id in XliffIds(updated[k].units) {
        changed := true;
      }
      updated := updated[k := updated[k].(units := ClearedXliffUnits(updated[k].units, id))];
    }
  }

  /** Clearing keeps the ids, empties exactly the matching targets, and a
      second clear changes nothing. */
  lemma ClearedUnitsShape(units: seq<TranslationUnit>, id: string)
    ensures var r := ClearedUnits(units, id);
      && Ids(r) == Ids(units)
      && (forall i :: 0 <= i < |units| ==> r[i].target == if units[i].id == id then "" else units[i].target)
      && ClearedUnits(r, id) == r
  {
    var r := ClearedUnits(units, id);
    assert forall i :: 0 <= i < |units| ==> Ids(r)[i] == Ids(units)[i];
  }

  /** The document handleClearTranslation writes shows the unit list it keeps. */
  lemma {:induction false} ClearedViewsAgree(files: seq<XliffFile>, isSourceOnly: bool, id: string)
    ensures FileOperations.UnitsOf(ClearedXliff(files, id), isSourceOnly)
      == ClearedUnits(FileOperations.UnitsOf(files, isSourceOnly), id)
  {
    if files != [] {
      var init := files[..|files| - 1];
      var last := files[|files| - 1];
      ClearedViewsAgree(init, isSourceOnly, id);
      ClearedXliffInit(files, id);
      ClearedExtract(last.units, isSourceOnly, id);
      ClearedAppend(FileOperations.UnitsOf(init, isSourceOnly), FileOperations.ExtractUnits(last.units, isSourceOnly), id);
    }
  }

  lemma ClearedXliffInit(files: seq<XliffFile>, id: string)
    requires files != []
    ensures ClearedXliff(files, id)[..|files| - 1] == ClearedXliff(files[..|files| - 1], id)
  {
  }

  lemma ClearedExtract(us: seq<XliffUnit>, isSourceOnly: bool, id: string)
    ensures FileOperations.ExtractUnits(ClearedXliffUnits(us, id), isSourceOnly)
      == ClearedUnits(FileOperations.ExtractUnits(us, isSourceOnly), id)
  {
  }

  lemma ClearedAppend(a: seq<TranslationUnit>, b: seq<TranslationUnit>, id: string)
    ensures ClearedUnits(a + b, id) == ClearedUnits(a, id) + ClearedUnits(b, id)
  {
  }

  /** handleAddKey's document: the new unit goes last in the first file. */
  function AddedXliff(files: seq<XliffFile>, id: string, source: string): seq<XliffFile> {
    if |files| > 0 then files[0 := files[0].(units := files[0].units + [XliffUnit(id, source, Some(""))])] else files
  }

  /** For a one-file document the written unit list and the kept one agree;
      a document without files gets no unit at all. */
  lemma AddedViewsAgree(files: seq<XliffFile>, isSourceOnly: bool, id: string, source: string)
    ensures |files| == 1 ==>
      FileOperations.UnitsOf(AddedXliff(files, id, source), isSourceOnly)
        == FileOperations.UnitsOf(files, isSourceOnly) + [TranslationUnit(id, source, "")]
    ensures files == [] ==> AddedXliff(files, id, source) == []
  {
    if |files| == 1 {
      var added := AddedXliff(files, id, source);
      assert added[..0] == [] && files[..0] == [];
      ExtractAppend(files[0].units, [XliffUnit(id, source, Some(""))], isSourceOnly);
    }
  }

  /** handleReorder's document: the first file's units become the new order. */
  function ReorderedXliff(files: seq<XliffFile>, newOrder: seq<TranslationUnit>): seq<XliffFile> {
    if |files| > 0 then files[0 := files[0].(units := ToXliffUnits(newOrder))] else files
  }

  /** The plain `{ id, source, target }` objects the table hands over. */
  function ToXliffUnits(units: seq<TranslationUnit>): (r: seq<XliffUnit>)
    ensures |r| == |units|
    ensures forall i :: 0 <= i < |units| ==> r[i] == XliffUnit(units[i].id, units[i].source, Some(units[i].target))
  {
    seq(|units|, i requires 0 <= i < |units| => XliffUnit(units[i].id, units[i].source, Some(units[i].target)))
  }

  /** A one-file translation document written after a reorder reads back as
      the new order. */
  lemma ReorderedViewsAgree(files: seq<XliffFile>, newOrder: seq<TranslationUnit>)
    requires |files| == 1
    ensures FileOperations.UnitsOf(ReorderedXliff(files, newOrder), false) == newOrder
  {
    var reordered := ReorderedXliff(files, newOrder);
    assert reordered[..0] == [];
  }

  // ---------------------------------------------------------------------
  // handleNewLanguage
  // ---------------------------------------------------------------------

  /** `selectedBaseName.split('/').pop() || selectedBaseName` */
  function ActualBaseName(selectedBaseName: string): string {
    var last := AfterLast(selectedBaseName, '/');
    if last == "" then selectedBaseName else last
  }

  /** `${languageCode}.${actualBaseName}.xlf` */
  function NewFileName(languageCode: string, selectedBaseName: string): string {
    languageCode + "." + ActualBaseName(selectedBaseName) + ".xlf"
  }

  /** `${defaultDir}/${newFileName}` */
  function NewFilePath(defaultPath: string, languageCode: string, selectedBaseName: string): string {
    DirectoryOf(defaultPath) + "/" + NewFileName(languageCode, selectedBaseName)
  }

  /** The copy of the default file's document: its first file gets the
      language and empty targets; other files are copied as they are. */
  function NewLanguageDocument(doc: XliffDocument, languageCode: string): XliffDocument {
    if |doc.files| > 0 then
      var first := doc.files[0];
      doc.(files := doc.files[0 := first.(targetLanguage := Some(languageCode), units := BlankTargets(first.units))])
    else doc
  }

  function BlankTargets(us: seq<XliffUnit>): (r: seq<XliffUnit>)
    ensures |r| == |us|
    ensures forall j :: 0 <= j < |us| ==> r[j] == us[j].(target := Some(""))
  {
    seq(|us|, j requires 0 <= j < |us| => us[j].(target := Some("")))
  }

  /** `fileGroups.find(g => g.baseName === selectedBaseName)` */
  function FindGroup(groups: seq<Dashboard.T3FileGroup>, baseName: string): (r: Option<Dashboard.T3FileGroup>)
    ensures r.Some? ==> r.value in groups && r.value.baseName == baseName
    ensures r.None? ==> forall g :: g in groups ==> g.baseName != baseName
  {
    if groups == [] then None
    else if groups[0].baseName == baseName then Some(groups[0])
    else FindGroup(groups[1..], baseName)
  }

  /** `files.find(f => f.language === "default")` */
  function FindDefault(files: seq<Dashboard.T3File>): (r: Option<Dashboard.T3File>)
    ensures r.Some? ==> r.value in files && r.value.language == FileOperations.DefaultLanguage
    ensures r.None? ==> forall f :: f in files ==> f.language != FileOperations.DefaultLanguage
  {
    if files == [] then None
    else if files[0].language == FileOperations.DefaultLanguage then Some(files[0])
    else FindDefault(files[1..])
  }

  /** The new file's name parses back to the language code and the base
      name, so the next scan files it under that language. */
  lemma NewFileNameParses(languageCode: string, selectedBaseName: string)
    requires GoWorkspace.IsLanguageCode(languageCode)
    requires selectedBaseName != "" && FileOperations.NoLineTerminator(selectedBaseName)
    ensures var parsed := FileOperations.ParseT3FileName(NewFileName(languageCode, selectedBaseName));
      parsed.language == languageCode && parsed.baseName == ActualBaseName(selectedBaseName)
  {
    var base := ActualBaseName(selectedBaseName);
    AfterLastShape(selectedBaseName, '/');
    assert FileOperations.NoLineTerminator(base) by {
      forall i | 0 <= i < |base| ensures !FileOperations.IsLineTerminator(base[i]) {
        assert base[i] == selectedBaseName[|selectedBaseName| - |base| + i];
      }
    }
    FileOperations.ParseLanguagePrefixed(languageCode, base);
  }

  /** Chosen from the file tree, a group's display name leads back to its
      files' base name, and the new file lands in that group: same
      directory, same base name. */
  lemma NewLanguageJoinsGroup(defaultFile: Dashboard.T3File, folderPath: string, languageCode: string)
    requires '/' !in defaultFile.baseName && defaultFile.baseName != ""
    requires FileOperations.NoLineTerminator(defaultFile.baseName)
    requires GoWorkspace.IsLanguageCode(languageCode)
    ensures var selected := DisplayName(GroupKey(defaultFile), folderPath);
      var name := NewFileName(languageCode, selected);
      var path := NewFilePath(defaultFile.path, languageCode, selected);
      && ActualBaseName(selected) == defaultFile.baseName
      && GroupKey(T3FileOf(ScannedFile(name, path, None))) == GroupKey(defaultFile)
      && T3FileOf(ScannedFile(name, path, None)).language == languageCode
  {
    var key := GroupKey(defaultFile);
    SplitGroupKey(DirectoryOf(defaultFile.path), defaultFile.baseName);
    var selected := DisplayName(key, folderPath);
    var relativePath := StripLeadingSlash(RemoveFirst(DirectoryOf(key), folderPath));
    AfterLastBaseName(relativePath, defaultFile.baseName);
    assert ActualBaseName(selected) == defaultFile.baseName;
    var name := NewFileName(languageCode, selected);
    assert name == languageCode + "." + defaultFile.baseName + ".xlf";
    FileOperations.ParseLanguagePrefixed(languageCode, defaultFile.baseName);
    NoSlashInFileName(languageCode, defaultFile.baseName);
    SplitGroupKey(DirectoryOf(defaultFile.path), name);
  }

  lemma NoSlashInFileName(languageCode: string, baseName: string)
    requires GoWorkspace.IsLanguageCode(languageCode) && '/' !in baseName
    ensures '/' !in languageCode + "." + baseName + ".xlf"
  {
    var name := languageCode + "." + baseName + ".xlf";
    forall i | 0 <= i < |name| ensures name[i] != '/' {
      if i < 2 {
        assert name[i] == languageCode[i];
      } else if 3 <= i < 3 + |baseName| {
        assert name[i] == baseName[i - 3];
      }
    }
  }

  /** The new document keeps the default file's units and ids, with every
      target of its first file empty and the language set there. */
  lemma NewLanguageDocumentShape(doc: XliffDocument, languageCode: string)
    requires |doc.files| > 0
    ensures var r := NewLanguageDocument(doc, languageCode);
      && |r.files| == |doc.files| && r.version == doc.version
      && r.files[0].targetLanguage == Some(languageCode)
      && XliffIds(r.files[0].units) == XliffIds(doc.files[0].units)
      && (forall u :: u in r.files[0].units ==> u.target == Some(""))
      && r.files[1..] == doc.files[1..]
  {
  }

  // ---------------------------------------------------------------------
  // The component's state and handlers
  // ---------------------------------------------------------------------

  /** A saveFile call: the path and the document written there. */
  datatype FileWrite = FileWrite(path: string, data: XliffDocument)

  /** How handleNewLanguage ends. */
  datatype NewLanguageOutcome =
    | NotReady
    | GroupNotFound
    | NoDefaultFile
    | NoDefaultData
    | FileExists(fileName: string)
    | Created(write: FileWrite)

  /** handleFolderOpen's work on a successful scan: the loaded files' map,
      the sorted file tree, and the loaded files in scan order. */
  method OpenFolder(folderPathValue: string, scanned: seq<ScannedFile>, le: (string, string) -> bool)
    returns (newMap: seq<(string, FileData)>, groupArray: seq<Dashboard.T3FileGroup>, t3Files: seq<Dashboard.T3File>)
    ensures newMap == LoadedMap(scanned) && UniqueKeys(newMap)
    ensures groupArray == GroupArray(Grouped(LoadedFiles(scanned)), folderPathValue, le)
    ensures t3Files == LoadedFiles(scanned)
  {
    newMap, t3Files := LoadScanned(scanned);
    LoadedFilesHaveData(scanned);
    var groups := GroupFiles(t3Files);
    groupArray := GroupArray(groups, folderPathValue, le);
  }

  /** What handleNewLanguage decides from the state before it writes. */
  function NewLanguagePlan(folderPath: Option<string>, selectedBaseName: string,
                           fileGroups: seq<Dashboard.T3FileGroup>, fileDataMap: seq<(string, FileData)>,
                           languageCode: string, existingPaths: set<string>): NewLanguageOutcome
  {
    if !IsSet(folderPath) || selectedBaseName == "" then NotReady
    else match FindGroup(fileGroups, selectedBaseName)
      case None => GroupNotFound
      case Some(group) =>
        match FindDefault(group.files)
        case None => NoDefaultFile
        case Some(defaultFile) =>
          match Get(fileDataMap, defaultFile.path)
          case None => NoDefaultData
          case Some(defaultData) =>
            var newPath := NewFilePath(defaultFile.path, languageCode, selectedBaseName);
            if newPath in existingPaths then FileExists(NewFileName(languageCode, selectedBaseName))
            else Created(FileWrite(newPath, NewLanguageDocument(defaultData.xliffData, languageCode)))
  }

  /** A file is created only with a folder open and a base name selected,
      from the 'default' file of the group shown under that name whose data
      is loaded, at a path that does not exist yet; without such a group
      nothing is created. */
  lemma NewLanguagePlanCreates(folderPath: Option<string>, selectedBaseName: string,
                               fileGroups: seq<Dashboard.T3FileGroup>, fileDataMap: seq<(string, FileData)>,
                               languageCode: string, existingPaths: set<string>)
    ensures var r := NewLanguagePlan(folderPath, selectedBaseName, fileGroups, fileDataMap, languageCode, existingPaths);
      r.Created? ==>
        && IsSet(folderPath) && selectedBaseName != ""
        && r.write.path !in existingPaths
        && exists g, f ::
             && g in fileGroups && g.baseName == selectedBaseName
             && f in g.files && f.language == FileOperations.DefaultLanguage
             && Get(fileDataMap, f.path).Some?
             && r.write == FileWrite(NewFilePath(f.path, languageCode, selectedBaseName),
                                     NewLanguageDocument(Get(fileDataMap, f.path).value.xliffData, languageCode))
    ensures (forall g :: g in fileGroups ==> g.baseName != selectedBaseName) ==>
      !NewLanguagePlan(folderPath, selectedBaseName, fileGroups, fileDataMap, languageCode, existingPaths).Created?
  {
    var r := NewLanguagePlan(folderPath, selectedBaseName, fileGroups, fileDataMap, languageCode, existingPaths);
    if r.Created? {
      var g := FindGroup(fileGroups, selectedBaseName).value;
      var f := FindDefault(g.files).value;
      assert g in fileGroups && f in g.files;
    }
  }

  class App {
    var currentFile: Option<string>
    var fileDataMap: seq<(string, FileData)>
    var fileGroups: seq<Dashboard.T3FileGroup>
    var folderPath: Option<string>
    var showNewLanguageDialog: bool
    var selectedBaseName: string

    ghost predicate Valid()
      reads this
    {
      UniqueKeys(fileDataMap)
    }

    /** Only the current file's entry of the map may change. */
    twostate predicate OnlyFileData()
      reads this
    {
      currentFile == old(currentFile) && fileGroups == old(fileGroups) && folderPath == old(folderPath)
      && showNewLanguageDialog == old(showNewLanguageDialog) && selectedBaseName == old(selectedBaseName)
    }

    constructor()
      ensures Valid()
      ensures currentFile == None && fileDataMap == [] && fileGroups == [] && folderPath == None
      ensures !showNewLanguageDialog && selectedBaseName == ""
    {
      currentFile := None;
      fileDataMap := [];
      fileGroups := [];
      folderPath := None;
      showNewLanguageDialog := false;
      selectedBaseName := "";
    }

    /** handleFileOpen: a file that loads joins the map and becomes current. */
    method HandleFileOpen(filePath: string, loaded: Option<FileData>)
      requires Valid()
      modifies this
      ensures Valid()
      ensures loaded.None? ==> unchanged(this)
      ensures loaded.Some? ==>
        && fileDataMap == Put(old(fileDataMap), filePath, loaded.value)
        && currentFile == Some(filePath)
      ensures fileGroups == old(fileGroups) && folderPath == old(folderPath)
      ensures showNewLanguageDialog == old(showNewLanguageDialog) && selectedBaseName == old(selectedBaseName)
    {
      if loaded.Some? {
        PutUnique(fileDataMap, filePath, loaded.value);
        fileDataMap := Put(fileDataMap, filePath, loaded.value);
        currentFile := Some(filePath);
      }
    }

    /** handleFolderOpen: the scan's files are loaded, grouped and sorted; the
        first loaded file becomes current. `scanForXliffFiles` itself never
        rejects (it catches its own errors and returns no files, which is the
        `Ok([])` case), so `Err` stands for a rejection of one of the other
        awaited calls inside handleFolderOpen's try block: that only shows a
        message and changes nothing. */
    method HandleFolderOpen(folderPathValue: string, scan: Result<seq<ScannedFile>>, le: (string, string) -> bool)
      requires Valid()
      modifies this
      ensures Valid()
      ensures scan.Err? ==> unchanged(this)
      ensures scan.Ok? ==>
        var t3Files := LoadedFiles(scan.value);
        && fileDataMap == LoadedMap(scan.value)
        && fileGroups == GroupArray(Grouped(t3Files), folderPathValue, le)
        && folderPath == Some(folderPathValue)
        && currentFile == (if t3Files != [] then Some(t3Files[0].path) else old(currentFile))
      ensures showNewLanguageDialog == old(showNewLanguageDialog) && selectedBaseName == old(selectedBaseName)
    {
      if scan.Err? {
        return;
      }
      var newMap, groupArray, t3Files := OpenFolder(folderPathValue, scan.value, le);
      var nextFile := if |t3Files| > 0 then Some(t3Files[0].path) else currentFile;
      SetOpenedFolder(newMap, groupArray, folderPathValue, nextFile);
    }

    /** The state setters handleFolderOpen calls once the tree is built. */
    method SetOpenedFolder(newMap: seq<(string, FileData)>, groupArray: seq<Dashboard.T3FileGroup>,
                           folderPathValue: string, nextFile: Option<string>)
      requires UniqueKeys(newMap)
      modifies this
      ensures Valid()
      ensures fileDataMap == newMap && fileGroups == groupArray && folderPath == Some(folderPathValue) && currentFile == nextFile
      ensures showNewLanguageDialog == old(showNewLanguageDialog) && selectedBaseName == old(selectedBaseName)
    {
      fileDataMap := newMap;
      fileGroups := groupArray;
      folderPath := Some(folderPathValue);
      currentFile := nextFile;
    }

    /** handleSave: the current file's document gets the new values in its
        first unit with the old id and is written; its unit list maps every
        unit with that id. Without a current file or its data nothing
        happens. A source-only file saves an empty target. */
    method HandleSave(oldId: string, newId: string, source: string, target: string) returns (write: Option<FileWrite>)
      requires Valid()
      modifies this
      ensures Valid() && OnlyFileData()
      ensures write.Some? <==> IsSet(old(currentFile)) && Get(old(fileDataMap), old(currentFile).value).Some?
      ensures write.None? ==> fileDataMap == old(fileDataMap)
      ensures write.Some? ==>
        var path := old(currentFile).value;
        var d := Get(old(fileDataMap), path).value;
        var nextTarget := if d.isSourceOnly then "" else target;
        var doc := d.xliffData.(files := SavedFirstMatch(d.xliffData.files, oldId, newId, source, nextTarget));
        && write.value == FileWrite(path, doc)
        && fileDataMap == Put(old(fileDataMap), path, d.(xliffData := doc, units := SavedUnits(d.units, oldId, newId, source, nextTarget)))
    {
      write := None;
      if !IsSet(currentFile) {
        return;
      }
      var fileData := Get(fileDataMap, currentFile.value);
      if fileData.None? {
        return;
      }
      var data := fileData.value;
      var nextTarget := if data.isSourceOnly then "" else target;
      var files := SaveInCopy(data.xliffData.files, oldId, newId, source, nextTarget);
      var updatedData := data.xliffData.(files := files);
      write := Some(FileWrite(currentFile.value, updatedData));
      var updatedUnits := SavedUnits(data.units, oldId, newId, source, nextTarget);
      PutUnique(fileDataMap, currentFile.value, data.(xliffData := updatedData, units := updatedUnits));
      fileDataMap := Put(fileDataMap, currentFile.value, data.(xliffData := updatedData, units := updatedUnits));
    }

    /** handleDelete: once confirmed, every unit with the id leaves both the
        unit list and every file of the written document. */
    method HandleDelete(id: string, confirmed: bool) returns (write: Option<FileWrite>)
      requires Valid()
      modifies this
      ensures Valid() && OnlyFileData()
      ensures write.Some? <==> IsSet(old(currentFile)) && confirmed && Get(old(fileDataMap), old(currentFile).value).Some?
      ensures write.None? ==> fileDataMap == old(fileDataMap)
      ensures write.Some? ==>
        var path := old(currentFile).value;
        var d := Get(old(fileDataMap), path).value;
        var doc := d.xliffData.(files := DeletedXliff(d.xliffData.files, id));
        && write.value == FileWrite(path, doc)
        && fileDataMap == Put(old(fileDataMap), path, d.(xliffData := doc, units := Filter(d.units, NotId(id))))
    {
      write := None;
      if !IsSet(currentFile) || !confirmed {
        return;
      }
      var fileData := Get(fileDataMap, currentFile.value);
      if fileData.None? {
        return;
      }
      var data := fileData.value;
      var files := DeleteInCopy(data.xliffData.files, id);
      var updatedData := data.xliffData.(files := files);
      write := Some(FileWrite(currentFile.value, updatedData));
      var updatedUnits := Filter(data.units, NotId(id));
      PutUnique(fileDataMap, currentFile.value, data.(xliffData := updatedData, units := updatedUnits));
      fileDataMap := Put(fileDataMap, currentFile.value, data.(xliffData := updatedData, units := updatedUnits));
    }

    /** handleClearTranslation: nothing for a source-only file or when no
        unit of the document has the id; otherwise those units' targets
        become empty in both the document and the unit list. */
    method HandleClearTranslation(id: string) returns (write: Option<FileWrite>)
      requires Valid()
      modifies this
      ensures Valid() && OnlyFileData()
      ensures write.Some? <==>
        && IsSet(old(currentFile))
        && Get(old(fileDataMap), old(currentFile).value).Some?
        && !Get(old(fileDataMap), old(currentFile).value).value.isSourceOnly
        && FirstFileWith(Get(old(fileDataMap), old(currentFile).value).value.xliffData.files, id) != -1
      ensures write.None? ==> fileDataMap == old(fileDataMap)
      ensures write.Some? ==>
        var path := old(currentFile).value;
        var d := Get(old(fileDataMap), path).value;
        var doc := d.xliffData.(files := ClearedXliff(d.xliffData.files, id));
        && write.value == FileWrite(path, doc)
        && fileDataMap == Put(old(fileDataMap), path, d.(xliffData := doc, units := ClearedUnits(d.units, id)))
    {
      write := None;
      if !IsSet(currentFile) {
        return;
      }
      var fileData := Get(fileDataMap, currentFile.value);
      if fileData.None? || fileData.value.isSourceOnly {
        return;
      }
      var data := fileData.value;
      var files, changed := ClearInCopy(data.xliffData.files, id);
      if !changed {
        return;
      }
      var updatedData := data.xliffData.(files := files);
      write := Some(FileWrite(currentFile.value, updatedData));
      var updatedUnits := ClearedUnits(data.units, id);
      PutUnique(fileDataMap, currentFile.value, data.(xliffData := updatedData, units := updatedUnits));
      fileDataMap := Put(fileDataMap, currentFile.value, data.(xliffData := updatedData, units := updatedUnits));
    }

    /** handleAddKey: an id already in the unit list is refused with a
        message; otherwise the unit with an empty target goes last in the
        unit list and in the document's first file, if it has one. */
    method HandleAddKey(id: string, source: string) returns (write: Option<FileWrite>, duplicate: bool)
      requires Valid()
      modifies this
      ensures Valid() && OnlyFileData()
      ensures duplicate <==>
        IsSet(old(currentFile)) && Get(old(fileDataMap), old(currentFile).value).Some?
        && id in Ids(Get(old(fileDataMap), old(currentFile).value).value.units)
      ensures write.Some? <==>
        IsSet(old(currentFile)) && Get(old(fileDataMap), old(currentFile).value).Some? && !duplicate
      ensures write.None? ==> fileDataMap == old(fileDataMap)
      ensures write.Some? ==>
        var path := old(currentFile).value;
        var d := Get(old(fileDataMap), path).value;
        var doc := d.xliffData.(files := AddedXliff(d.xliffData.files, id, source));
        && write.value == FileWrite(path, doc)
        && fileDataMap == Put(old(fileDataMap), path, d.(xliffData := doc, units := d.units + [TranslationUnit(id, source, "")]))
        && (Distinct(Ids(d.units)) ==> Distinct(Ids(d.units + [TranslationUnit(id, source, "")])))
    {
      write := None;
      duplicate := false;
      if !IsSet(currentFile) {
        return;
      }
      var fileData := Get(fileDataMap, currentFile.value);
      if fileData.None? {
        return;
      }
      var data := fileData.value;
      if id in Ids(data.units) {
        duplicate := true;
        return;
      }
      var updatedData := data.xliffData.(files := AddedXliff(data.xliffData.files, id, source));
      write := Some(FileWrite(currentFile.value, updatedData));
      var updatedUnits := data.units + [TranslationUnit(id, source, "")];
      assert Ids(updatedUnits) == Ids(data.units) + [id];
      PutUnique(fileDataMap, currentFile.value, data.(xliffData := updatedData, units := updatedUnits));
      fileDataMap := Put(fileDataMap, currentFile.value, data.(xliffData := updatedData, units := updatedUnits));
    }

    /** handleVersionChange: the document and the file's data take the version. */
    method HandleVersionChange(version: string) returns (write: Option<FileWrite>)
      requires version == "1.2" || version == "2.0"
      requires Valid()
      modifies this
      ensures Valid() && OnlyFileData()
      ensures write.Some? <==> IsSet(old(currentFile)) && Get(old(fileDataMap), old(currentFile).value).Some?
      ensures write.None? ==> fileDataMap == old(fileDataMap)
      ensures write.Some? ==>
        var path := old(currentFile).value;
        var d := Get(old(fileDataMap), path).value;
        var doc := d.xliffData.(version := Some(version));
        && write.value == FileWrite(path, doc)
        && fileDataMap == Put(old(fileDataMap), path, d.(xliffData := doc, version := version))
    {
      write := None;
      if !IsSet(currentFile) {
        return;
      }
      var fileData := Get(fileDataMap, currentFile.value);
      if fileData.None? {
        return;
      }
      var data := fileData.value;
      var updatedData := data.xliffData.(version := Some(version));
      write := Some(FileWrite(currentFile.value, updatedData));
      PutUnique(fileDataMap, currentFile.value, data.(xliffData := updatedData, version := version));
      fileDataMap := Put(fileDataMap, currentFile.value, data.(xliffData := updatedData, version := version));
    }

    /** handleReorder: the new order replaces the unit list and the first
        file's units in the written document. */
    method HandleReorder(newOrder: seq<TranslationUnit>) returns (write: Option<FileWrite>)
      requires Valid()
      modifies this
      ensures Valid() && OnlyFileData()
      ensures write.Some? <==> IsSet(old(currentFile)) && Get(old(fileDataMap), old(currentFile).value).Some?
      ensures write.None? ==> fileDataMap == old(fileDataMap)
      ensures write.Some? ==>
        var path := old(currentFile).value;
        var d := Get(old(fileDataMap), path).value;
        var doc := d.xliffData.(files := ReorderedXliff(d.xliffData.files, newOrder));
        && write.value == FileWrite(path, doc)
        && fileDataMap == Put(old(fileDataMap), path, d.(xliffData := doc, units := newOrder))
    {
      write := None;
      if !IsSet(currentFile) {
        return;
      }
      var fileData := Get(fileDataMap, currentFile.value);
      if fileData.None? {
        return;
      }
      var data := fileData.value;
      var updatedData := data.xliffData.(files := ReorderedXliff(data.xliffData.files, newOrder));
      write := Some(FileWrite(currentFile.value, updatedData));
      PutUnique(fileDataMap, currentFile.value, data.(xliffData := updatedData, units := newOrder));
      fileDataMap := Put(fileDataMap, currentFile.value, data.(xliffData := updatedData, units := newOrder));
    }

    /** handleNewLanguage: the selected group's 'default' file is copied,
        under `<code>.<base>.xlf` in its directory, with the language set and
        the targets emptied; the folder is scanned again and the new file
        becomes current. Each missing piece ends it early and changes
        nothing; an existing file of that name is refused. `existingPaths`
        answers checkFileExists and `rescan` is what the second scan finds. */
    method HandleNewLanguage(languageCode: string, existingPaths: set<string>,
                             rescan: Result<seq<ScannedFile>>, le: (string, string) -> bool)
      returns (outcome: NewLanguageOutcome)
      requires Valid()
      modifies this
      ensures Valid()
      ensures outcome == NewLanguagePlan(old(folderPath), old(selectedBaseName), old(fileGroups), old(fileDataMap), languageCode, existingPaths)
      ensures !outcome.Created? ==> unchanged(this)
      ensures outcome.Created? ==>
        && currentFile == Some(outcome.write.path)
        && !showNewLanguageDialog && selectedBaseName == ""
        && (rescan.Ok? ==>
              && fileDataMap == LoadedMap(rescan.value)
              && fileGroups == GroupArray(Grouped(LoadedFiles(rescan.value)), old(folderPath).value, le))
        && (rescan.Err? ==> fileDataMap == old(fileDataMap) && fileGroups == old(fileGroups))
    {
      if !IsSet(folderPath) || selectedBaseName == "" {
        return NotReady;
      }
      var targetGroup := FindGroup(fileGroups, selectedBaseName);
      if targetGroup.None? {
        return GroupNotFound;
      }
      var defaultFile := FindDefault(targetGroup.value.files);
      if defaultFile.None? {
        return NoDefaultFile;
      }
      var defaultData := Get(fileDataMap, defaultFile.value.path);
      if defaultData.None? {
        return NoDefaultData;
      }
      var newFileName := NewFileName(languageCode, selectedBaseName);
      var newFilePath := DirectoryOf(defaultFile.value.path) + "/" + newFileName;
      if newFilePath in existingPaths {
        return FileExists(newFileName);
      }
      var newXliffData := NewLanguageDocument(defaultData.value.xliffData, languageCode);
      outcome := Created(FileWrite(newFilePath, newXliffData));
      HandleFolderOpen(folderPath.value, rescan, le);
      SelectCreatedFile(newFilePath);
    }

    /** The setters handleNewLanguage calls after the rescan: the new file
        becomes current and the dialog closes with its selection cleared. */
    method SelectCreatedFile(newFilePath: string)
      requires Valid()
      modifies this
      ensures Valid()
      ensures currentFile == Some(newFilePath) && !showNewLanguageDialog && selectedBaseName == ""
      ensures fileDataMap == old(fileDataMap) && fileGroups == old(fileGroups) && folderPath == old(folderPath)
    {
      currentFile := Some(newFilePath);
      showNewLanguageDialog := false;
      selectedBaseName := "";
    }
  }
}
