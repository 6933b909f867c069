// The workspace store of the React front end (frontend/src/stores/workspace.ts):
// the groups of the open workspace keyed by id, the active group and
// language, and a cache of loaded file data whose groups are tracked in
// least-recently-loaded order and evicted beyond ten.

module WorkspaceStore {
  import opened Common
  import opened Types

  const MaxCachedGroups := 10

  datatype ViewMode = Dashboard | EditorView

  type Groups = seq<(string, TranslationGroup)>

  type FileCache = seq<(string, FileData)>

  // ---------------------------------------------------------------------
  // Specification functions
  // ---------------------------------------------------------------------

  /** `new Map(groups.map(g => [g.id, g]))`: a later group with the same id
      replaces the value but the key keeps its first position. */
  function FromEntries(gs: seq<TranslationGroup>): (r: Groups)
    ensures UniqueKeys(r)
    ensures forall e :: e in r ==> e.1 in gs && e.0 == e.1.id
    ensures forall g :: g in gs ==> g.id in Keys(r)
  {
    if gs == [] then []
    else
      var init := FromEntries(gs[..|gs| - 1]);
      var g := gs[|gs| - 1];
      PutUnique(init, g.id, g);
      assert forall x :: x in gs[..|gs| - 1] ==> x in gs;
      assert forall x :: x in gs ==> x in gs[..|gs| - 1] || x == g;
      Put(init, g.id, g)
  }

  /** The language setActiveGroup picks: the first key other than 'default',
      else the first key, with an empty string read as null either way. */
  function PreferredLanguage(languages: seq<string>): (r: Option<string>)
    ensures r.Some? ==> r.value in languages && r.value != ""
  {
    var i := FirstOther(languages, DefaultLanguage);
    if i != -1 && languages[i] != "" then Some(languages[i])
    else if |languages| > 0 && languages[0] != "" then Some(languages[0])
    else None
  }

  const DefaultLanguage := "default"

  /** `languages.find(l => l !== x)`, as an index. */
  function FirstOther(languages: seq<string>, x: string): (r: int)
    ensures -1 <= r < |languages|
    ensures r == -1 <==> forall i :: 0 <= i < |languages| ==> languages[i] == x
    ensures r >= 0 ==> languages[r] != x && forall i :: 0 <= i < r ==> languages[i] == x
  {
    if languages == [] then -1
    else if languages[0] != x then 0
    else var r := FirstOther(languages[1..], x); if r == -1 then -1 else r + 1
  }

  /** `idx = list.indexOf(id); if (idx !== -1) list.splice(idx, 1)` */
  function SpliceOut(loaded: seq<string>, groupId: string): seq<string> {
    var idx := IndexOf(loaded, groupId);
    if idx != -1 then loaded[..idx] + loaded[idx + 1..] else loaded
  }

  /** markGroupLoaded: the first occurrence of the id is spliced out, then it is pushed. */
  function MarkLoaded(loaded: seq<string>, groupId: string): seq<string> {
    SpliceOut(loaded, groupId) + [groupId]
  }

  /** The paths of a group's files, in insertion order. */
  function FilePaths(files: seq<(string, FileMetadata)>): (r: seq<string>)
    ensures |r| == |files|
    ensures forall i :: 0 <= i < |files| ==> r[i] == files[i].1.path
  {
    if files == [] then [] else [files[0].1.path] + FilePaths(files[1..])
  }

  /** The cache paths evictOldGroups drops for the shifted ids: those of
      every file of each truthy id's group, when the group still exists. */
  function EvictedPaths(groups: Groups, ids: seq<string>): seq<string> {
    if ids == [] then []
    else
      EvictedPaths(groups, ids[..|ids| - 1])
      + (var id := ids[|ids| - 1];
         if id != "" && Get(groups, id).Some? then FilePaths(Get(groups, id).value.files) else [])
  }

  /** `for (p of paths) cache.delete(p)` */
  function DeleteAll(cache: FileCache, paths: seq<string>): (r: FileCache)
    requires UniqueKeys(cache)
    ensures UniqueKeys(r)
    decreases |paths|
  {
    if paths == [] then cache
    else DeleteAll(Delete(cache, paths[0]), paths[1..])
  }

  /** The comparator of selectLanguagesForGroup, as "may come first": 'default'
      goes first, the rest follow the locale order `le`. */
  function LanguageOrder(le: (string, string) -> bool): (string, string) -> bool {
    (a: string, b: string) => a == DefaultLanguage || (b != DefaultLanguage && le(a, b))
  }

  function BaseNameOrder(le: (string, string) -> bool): (TranslationGroup, TranslationGroup) -> bool {
    (a: TranslationGroup, b: TranslationGroup) => le(a.baseName, b.baseName)
  }

  /** selectLanguagesForGroup: the group's languages, 'default' first, the rest
      by locale; an unknown group has none. */
  function SelectLanguagesForGroup(groups: Groups, groupId: string, le: (string, string) -> bool): (r: seq<string>)
    requires TotalPreorder(le)
    ensures Get(groups, groupId).None? ==> r == []
    ensures Get(groups, groupId).Some? ==> multiset(r) == multiset(Keys(Get(groups, groupId).value.files))
    ensures SortedBy(r, LanguageOrder(le))
    ensures DefaultLanguage in r ==> r[0] == DefaultLanguage
  {
    match Get(groups, groupId)
    case None => []
    case Some(g) =>
      var order := LanguageOrder(le);
      assert TotalPreorder(order);
      SortBySorted(Keys(g.files), order);
      var r := SortBy(Keys(g.files), order);
      if DefaultLanguage in r then
        var k :| 0 <= k < |r| && r[k] == DefaultLanguage;
        assert k > 0 ==> order(r[0], r[k]);
        r
      else r
  }

  /** selectGroupsList: the groups ordered by base name, equal names in map order. */
  function SelectGroupsList(groups: Groups, le: (string, string) -> bool): (r: seq<TranslationGroup>)
    requires TotalPreorder(le)
    ensures multiset(r) == multiset(Values(groups))
    ensures SortedBy(r, BaseNameOrder(le))
  {
    var order := BaseNameOrder(le);
    forall a, b ensures order(a, b) || order(b, a) {
      assert le(a.baseName, b.baseName) || le(b.baseName, a.baseName);
    }
    forall a, b, c | order(a, b) && order(b, c) ensures order(a, c) {
      assert le(a.baseName, b.baseName) && le(b.baseName, c.baseName);
    }
    SortBySorted(Values(groups), BaseNameOrder(le));
    SortBy(Values(groups), BaseNameOrder(le))
  }

  // ---------------------------------------------------------------------
  // Lemmas
  // ---------------------------------------------------------------------

  /** With distinct ids, splicing out the id's first occurrence removes it
      altogether, and the others keep their order. */
  lemma SpliceOutRemoves(loaded: seq<string>, groupId: string)
    requires Distinct(loaded)
    ensures SpliceOut(loaded, groupId) == RemoveAll(loaded, groupId)
    ensures Distinct(SpliceOut(loaded, groupId))
  {
    var idx := IndexOf(loaded, groupId);
    if idx == -1 {
      RemoveAllAbsent(loaded, groupId);
    } else {
      assert loaded == loaded[..idx] + [groupId] + loaded[idx + 1..];
      RemoveAllSplit(loaded[..idx], groupId, loaded[idx + 1..]);
      assert groupId !in loaded[idx + 1..];
      RemoveAllAbsent(loaded[..idx], groupId);
      RemoveAllAbsent(loaded[idx + 1..], groupId);
    }
    RemoveAllDistinct(loaded, groupId);
  }

  /** With distinct ids, markGroupLoaded moves the id to the end: it appears
      exactly once, last, and the others keep their order. */
  lemma MarkLoadedMovesToEnd(loaded: seq<string>, groupId: string)
    requires Distinct(loaded)
    ensures MarkLoaded(loaded, groupId) == RemoveAll(loaded, groupId) + [groupId]
    ensures Distinct(MarkLoaded(loaded, groupId))
  {
    SpliceOutRemoves(loaded, groupId);
    var r := MarkLoaded(loaded, groupId);
    assert forall i :: 0 <= i < |r| - 1 ==> r[i] in RemoveAll(loaded, groupId);
  }

  lemma {:induction false} RemoveAllSplit(a: seq<string>, x: string, b: seq<string>)
    ensures RemoveAll(a + [x] + b, x) == RemoveAll(a, x) + RemoveAll(b, x)
    decreases |a|
  {
    if a == [] {
      assert ([x] + b)[1..] == b;
    } else {
      assert (a + [x] + b)[1..] == a[1..] + [x] + b;
      RemoveAllSplit(a[1..], x, b);
    }
  }

  lemma {:induction false} RemoveAllDistinct(xs: seq<string>, x: string)
    requires Distinct(xs)
    ensures Distinct(RemoveAll(xs, x))
    decreases |xs|
  {
    if xs != [] {
      RemoveAllDistinct(xs[1..], x);
      var t := RemoveAll(xs[1..], x);
      assert xs[0] !in xs[1..];
      assert xs[0] !in t;
    }
  }

  /** setActiveGroup's choice for languages that are never empty strings:
      none only for a group without files, 'default' only when it is the
      group's one language, otherwise the first language besides 'default'. */
  lemma PreferredLanguageChoice(languages: seq<string>)
    requires forall l :: l in languages ==> l != ""
    requires Distinct(languages)
    ensures PreferredLanguage(languages).None? <==> languages == []
    ensures PreferredLanguage(languages) == Some(DefaultLanguage) <==> languages == [DefaultLanguage]
    ensures FirstOther(languages, DefaultLanguage) != -1 ==>
      PreferredLanguage(languages) == Some(languages[FirstOther(languages, DefaultLanguage)])
  {
    var i := FirstOther(languages, DefaultLanguage);
    assert |languages| > 1 ==> languages[0] != languages[1];
    if languages != [] {
      assert languages[0] in languages;
      if i != -1 {
        assert languages[i] in languages;
      }
    }
  }

  /** What evictOldGroups shifts: the oldest ids beyond the last ten. */
  function Overflow(loaded: seq<string>): nat {
    if |loaded| > MaxCachedGroups then |loaded| - MaxCachedGroups else 0
  }

  // ---------------------------------------------------------------------
  // The store
  // ---------------------------------------------------------------------

  /** Group ids are distinct, and so are the languages of each group. */
  ghost predicate GroupsWellFormed(groups: Groups) {
    && UniqueKeys(groups)
    && forall e :: e in groups ==> UniqueKeys(e.1.files)
  }

  class Workspace {
    var projectRoot: Option<string>
    var groups: Groups
    var activeGroupId: Option<string>
    var activeLanguage: Option<string>
    var viewMode: ViewMode
    var fileCache: FileCache
    var loadedGroups: seq<string>
    var isScanning: bool
    var scanError: Option<string>

    /** Both maps have unique keys, and each id is loaded at most once. */
    ghost predicate Valid()
      reads this
    {
      && GroupsWellFormed(groups)
      && UniqueKeys(fileCache)
      && Distinct(loadedGroups)
    }

    constructor()
      ensures Valid()
      ensures projectRoot == None && groups == [] && activeGroupId == None && activeLanguage == None
      ensures viewMode == Dashboard && fileCache == [] && loadedGroups == [] && !isScanning && scanError == None
    {
      projectRoot := None;
      groups := [];
      activeGroupId := None;
      activeLanguage := None;
      viewMode := Dashboard;
      fileCache := [];
      loadedGroups := [];
      isScanning := false;
      scanError := None;
    }

    /** setProjectRoot: a falsy path closes the workspace and clears its state. */
    method SetProjectRoot(path: Option<string>)
      requires Valid()
      modifies this
      ensures Valid()
      ensures projectRoot == path
      ensures !IsSet(path) ==> groups == [] && activeGroupId == None && activeLanguage == None && fileCache == [] && loadedGroups == []
      ensures IsSet(path) ==> (groups == old(groups) && activeGroupId == old(activeGroupId) && activeLanguage == old(activeLanguage)
        && fileCache == old(fileCache) && loadedGroups == old(loadedGroups))
      ensures viewMode == old(viewMode) && isScanning == old(isScanning) && scanError == old(scanError)
    {
      projectRoot := path;
      if !IsSet(path) {
        groups := [];
        activeGroupId := None;
        activeLanguage := None;
        fileCache := [];
        loadedGroups := [];
      }
    }

    /** setWorkspaceScan: groups keyed by id; the first scanned group becomes
        active only when no group is. */
    method SetWorkspaceScan(rootPath: string, scanGroups: seq<TranslationGroup>)
      requires Valid()
      requires forall g :: g in scanGroups ==> UniqueKeys(g.files)
      modifies this
      ensures Valid()
      ensures projectRoot == Some(rootPath) && groups == FromEntries(scanGroups)
      ensures !isScanning && scanError == None
      ensures activeGroupId == if !IsSet(old(activeGroupId)) && |scanGroups| > 0 then Some(scanGroups[0].id) else old(activeGroupId)
      ensures activeLanguage == old(activeLanguage) && viewMode == old(viewMode)
      ensures fileCache == old(fileCache) && loadedGroups == old(loadedGroups)
    {
      var m := GroupsById(scanGroups);
      assert forall e :: e in m ==> e.1 in scanGroups;
      projectRoot := Some(rootPath);
      groups := m;
      isScanning := false;
      scanError := None;
      if !IsSet(activeGroupId) && |scanGroups| > 0 {
        activeGroupId := Some(scanGroups[0].id);
      }
    }

    /** The `new Map(...)` loop of setWorkspaceScan. */
    static method GroupsById(scanGroups: seq<TranslationGroup>) returns (m: Groups)
      ensures m == FromEntries(scanGroups)
    {
      m := [];
      var i := 0;
      while i < |scanGroups|
        invariant 0 <= i <= |scanGroups|
        invariant m == FromEntries(scanGroups[..i])
      {
        ghost var next := scanGroups[..i + 1];
        assert next[..|next| - 1] == scanGroups[..i] && next[|next| - 1] == scanGroups[i];
        assert FromEntries(next) == Put(m, scanGroups[i].id, scanGroups[i]);
        m := Put(m, scanGroups[i].id, scanGroups[i]);
        i := i + 1;
      }
      assert scanGroups[..i] == scanGroups;
    }

    /** setActiveGroup: a known group picks its preferred language, an unknown
        one leaves the language, a falsy id clears it. */
    method SetActiveGroup(groupId: Option<string>)
      requires Valid()
      modifies this
      ensures Valid()
      ensures activeGroupId == groupId
      ensures activeLanguage ==
        if !IsSet(groupId) then None
        else match Get(groups, groupId.value)
          case Some(g) => PreferredLanguage(Keys(g.files))
          case None => old(activeLanguage)
      ensures projectRoot == old(projectRoot) && groups == old(groups) && viewMode == old(viewMode)
      ensures fileCache == old(fileCache) && loadedGroups == old(loadedGroups)
      ensures isScanning == old(isScanning) && scanError == old(scanError)
    {
      activeGroupId := groupId;
      if IsSet(groupId) {
        var group := Get(groups, groupId.value);
        if group.Some? {
          var languages := Keys(group.value.files);
          var i := 0;
          while i < |languages| && languages[i] == DefaultLanguage
            invariant 0 <= i <= |languages|
            invariant forall j :: 0 <= j < i ==> languages[j] == DefaultLanguage
          {
            i := i + 1;
          }
          assert i == |languages| <==> FirstOther(languages, DefaultLanguage) == -1;
          assert i < |languages| ==> i == FirstOther(languages, DefaultLanguage);
          if i < |languages| && languages[i] != "" {
            activeLanguage := Some(languages[i]);
          } else if |languages| > 0 && languages[0] != "" {
            activeLanguage := Some(languages[0]);
          } else {
            activeLanguage := None;
          }
        }
      } else {
        activeLanguage := None;
      }
    }

    method SetActiveLanguage(language: Option<string>)
      requires Valid()
      modifies this
      ensures Valid()
      ensures activeLanguage == language
      ensures projectRoot == old(projectRoot) && groups == old(groups) && viewMode == old(viewMode)
      ensures activeGroupId == old(activeGroupId) && fileCache == old(fileCache) && loadedGroups == old(loadedGroups)
      ensures isScanning == old(isScanning) && scanError == old(scanError)
    {
      activeLanguage := language;
    }

    method SetViewMode(mode: ViewMode)
      requires Valid()
      modifies this
      ensures Valid()
      ensures viewMode == mode
      ensures projectRoot == old(projectRoot) && groups == old(groups) && activeLanguage == old(activeLanguage)
      ensures activeGroupId == old(activeGroupId) && fileCache == old(fileCache) && loadedGroups == old(loadedGroups)
      ensures isScanning == old(isScanning) && scanError == old(scanError)
    {
      viewMode := mode;
    }

    method SetScanning(scanning: bool)
      requires Valid()
      modifies this
      ensures Valid()
      ensures isScanning == scanning
      ensures projectRoot == old(projectRoot) && groups == old(groups) && viewMode == old(viewMode)
      ensures activeGroupId == old(activeGroupId) && activeLanguage == old(activeLanguage)
      ensures fileCache == old(fileCache) && loadedGroups == old(loadedGroups) && scanError == old(scanError)
    {
      isScanning := scanning;
    }

    /** setScanError: recording an error also ends the scan. */
    method SetScanError(error: Option<string>)
      requires Valid()
      modifies this
      ensures Valid()
      ensures scanError == error && !isScanning
      ensures projectRoot == old(projectRoot) && groups == old(groups) && viewMode == old(viewMode)
      ensures activeGroupId == old(activeGroupId) && activeLanguage == old(activeLanguage)
      ensures fileCache == old(fileCache) && loadedGroups == old(loadedGroups)
    {
      scanError := error;
      isScanning := false;
    }

    method CacheFileData(path: string, data: FileData)
      requires Valid()
      modifies this
      ensures Valid()
      ensures fileCache == Put(old(fileCache), path, data)
      ensures projectRoot == old(projectRoot) && groups == old(groups) && viewMode == old(viewMode)
      ensures activeGroupId == old(activeGroupId) && activeLanguage == old(activeLanguage) && loadedGroups == old(loadedGroups)
      ensures isScanning == old(isScanning) && scanError == old(scanError)
    {
      PutUnique(fileCache, path, data);
      fileCache := Put(fileCache, path, data);
    }

    /** getFileData */
    function GetFileData(path: string): (r: Option<FileData>)
      reads this
      ensures r.Some? <==> path in Keys(fileCache)
      ensures r.Some? ==> (path, r.value) in fileCache
    {
      Get(fileCache, path)
    }

    /** The shared `indexOf`/`splice` step on loadedGroups. */
    method SpliceLoaded(groupId: string)
      requires Valid()
      modifies this
      ensures Valid()
      ensures loadedGroups == SpliceOut(old(loadedGroups), groupId)
      ensures loadedGroups == RemoveAll(old(loadedGroups), groupId)
      ensures projectRoot == old(projectRoot) && groups == old(groups) && viewMode == old(viewMode)
      ensures activeGroupId == old(activeGroupId) && activeLanguage == old(activeLanguage) && fileCache == old(fileCache)
      ensures isScanning == old(isScanning) && scanError == old(scanError)
    {
      SpliceOutRemoves(loadedGroups, groupId);
      var idx := FindLoaded(loadedGroups, groupId);
      if idx != -1 {
        loadedGroups := loadedGroups[..idx] + loadedGroups[idx + 1..];
      }
    }

    /** markGroupLoaded: the id moves to (or joins) the end of the LRU list. */
    method MarkGroupLoaded(groupId: string)
      requires Valid()
      modifies this
      ensures Valid()
      ensures loadedGroups == MarkLoaded(old(loadedGroups), groupId)
      ensures loadedGroups == RemoveAll(old(loadedGroups), groupId) + [groupId]
      ensures projectRoot == old(projectRoot) && groups == old(groups) && viewMode == old(viewMode)
      ensures activeGroupId == old(activeGroupId) && activeLanguage == old(activeLanguage) && fileCache == old(fileCache)
      ensures isScanning == old(isScanning) && scanError == old(scanError)
    {
      MarkLoadedMovesToEnd(loadedGroups, groupId);
      SpliceLoaded(groupId);
      loadedGroups := loadedGroups + [groupId];
    }

    /** evictOldGroups: shift ids off the front until ten remain, dropping the
        cached data of every file of each shifted group that still exists. */
    method EvictOldGroups()
      requires Valid()
      modifies this
      ensures Valid()
      ensures loadedGroups == old(loadedGroups)[Overflow(old(loadedGroups))..]
      ensures fileCache == DeleteAll(old(fileCache), EvictedPaths(groups, old(loadedGroups)[..Overflow(old(loadedGroups))]))
      ensures projectRoot == old(projectRoot) && groups == old(groups) && viewMode == old(viewMode)
      ensures activeGroupId == old(activeGroupId) && activeLanguage == old(activeLanguage)
      ensures isScanning == old(isScanning) && scanError == old(scanError)
    {
      var loaded := loadedGroups;
      var shifted, cache := EvictFromCache(groups, loaded, fileCache);
      DistinctSuffix(loaded, shifted);
      loadedGroups := loaded[shifted..];
      fileCache := cache;
    }

    method AddGroup(group: TranslationGroup)
      requires Valid() && UniqueKeys(group.files)
      modifies this
      ensures Valid()
      ensures groups == Put(old(groups), group.id, group)
      ensures projectRoot == old(projectRoot) && viewMode == old(viewMode) && fileCache == old(fileCache)
      ensures activeGroupId == old(activeGroupId) && activeLanguage == old(activeLanguage) && loadedGroups == old(loadedGroups)
      ensures isScanning == old(isScanning) && scanError == old(scanError)
    {
      PutUnique(groups, group.id, group);
      groups := Put(groups, group.id, group);
    }

    /** removeGroup: the group, its files' cached data and its LRU entry go;
        an active group is replaced by the first remaining one. */
    method RemoveGroup(groupId: string)
      requires Valid()
      modifies this
      ensures Valid()
      ensures Get(old(groups), groupId).None? ==>
        groups == old(groups) && fileCache == old(fileCache) && loadedGroups == old(loadedGroups) && activeGroupId == old(activeGroupId)
      ensures Get(old(groups), groupId).Some? ==>
        && groups == Delete(old(groups), groupId)
        && fileCache == DeleteAll(old(fileCache), FilePaths(Get(old(groups), groupId).value.files))
        && loadedGroups == RemoveAll(old(loadedGroups), groupId)
        && activeGroupId == ActiveAfterRemove(old(activeGroupId), groupId, groups)
      ensures projectRoot == old(projectRoot) && viewMode == old(viewMode) && activeLanguage == old(activeLanguage)
      ensures isScanning == old(isScanning) && scanError == old(scanError)
    {
      var group := Get(groups, groupId);
      if group.Some? {
        groups, fileCache, activeGroupId := DropGroup(groups, fileCache, activeGroupId, groupId, group.value);
        SpliceLoaded(groupId);
      }
    }

    /** addFileToGroup: sets the language's file, and the source file for 'default'. */
    method AddFileToGroup(groupId: string, language: string, file: FileMetadata)
      requires Valid()
      modifies this
      ensures Valid()
      ensures Get(old(groups), groupId).None? ==> groups == old(groups)
      ensures Get(old(groups), groupId).Some? ==>
        var g := Get(old(groups), groupId).value;
        groups == Put(old(groups), groupId, g.(
          files := Put(g.files, language, file),
          sourceFile := if language == DefaultLanguage then Some(file) else g.sourceFile))
      ensures projectRoot == old(projectRoot) && viewMode == old(viewMode) && fileCache == old(fileCache)
      ensures activeGroupId == old(activeGroupId) && activeLanguage == old(activeLanguage) && loadedGroups == old(loadedGroups)
      ensures isScanning == old(isScanning) && scanError == old(scanError)
    {
      var group := Get(groups, groupId);
      if group.Some? {
        var g := group.value;
        assert UniqueKeys(g.files);
        PutUnique(g.files, language, file);
        g := g.(files := Put(g.files, language, file));
        if language == DefaultLanguage {
          g := g.(sourceFile := Some(file));
        }
        PutUnique(groups, groupId, g);
        groups := Put(groups, groupId, g);
      }
    }

    /** removeFileFromGroup: drops the language's file and its cached data, and
        the source file for 'default'; the group stays even when emptied. */
    method RemoveFileFromGroup(groupId: string, language: string)
      requires Valid()
      modifies this
      ensures Valid()
      ensures Get(old(groups), groupId).None? ==> groups == old(groups) && fileCache == old(fileCache)
      ensures Get(old(groups), groupId).Some? ==>
        var g := Get(old(groups), groupId).value;
        && groups == Put(old(groups), groupId, g.(
             files := Delete(g.files, language),
             sourceFile := if language == DefaultLanguage then None else g.sourceFile))
        && fileCache == match Get(g.files, language)
             case Some(f) => Delete(old(fileCache), f.path)
             case None => old(fileCache)
      ensures projectRoot == old(projectRoot) && viewMode == old(viewMode)
      ensures activeGroupId == old(activeGroupId) && activeLanguage == old(activeLanguage) && loadedGroups == old(loadedGroups)
      ensures isScanning == old(isScanning) && scanError == old(scanError)
    {
      var gs, cache := DropFile(groups, fileCache, groupId, language);
      groups := gs;
      fileCache := cache;
    }

    /** selectActiveGroup */
    function SelectActiveGroup(): (r: Option<TranslationGroup>)
      reads this
      ensures r.Some? ==> IsSet(activeGroupId) && (activeGroupId.value, r.value) in groups
      ensures IsSet(activeGroupId) && activeGroupId.value in Keys(groups) ==> r.Some?
    {
      if IsSet(activeGroupId) then Get(groups, activeGroupId.value) else None
    }

    /** selectActiveFile: cached data only when the active group, the active
        language, its file and that file's cache entry all exist. */
    function SelectActiveFile(): (r: Option<FileData>)
      reads this
      ensures r.Some? <==>
        && IsSet(activeGroupId) && IsSet(activeLanguage)
        && Get(groups, activeGroupId.value).Some?
        && Get(Get(groups, activeGroupId.value).value.files, activeLanguage.value).Some?
        && Get(Get(groups, activeGroupId.value).value.files, activeLanguage.value).value.path in Keys(fileCache)
      ensures r.Some? ==>
        (Get(Get(groups, activeGroupId.value).value.files, activeLanguage.value).value.path, r.value) in fileCache
    {
      if !IsSet(activeGroupId) || !IsSet(activeLanguage) then None
      else match Get(groups, activeGroupId.value)
        case None => None
        case Some(group) =>
          match Get(group.files, activeLanguage.value)
          case None => None
          case Some(fileMeta) => Get(fileCache, fileMeta.path)
    }
  }

  /** `loadedGroups.indexOf(groupId)` */
  method FindLoaded(loaded: seq<string>, groupId: string) returns (idx: int)
    ensures idx == IndexOf(loaded, groupId)
  {
    idx := 0;
    while idx < |loaded| && loaded[idx] != groupId
      invariant 0 <= idx <= |loaded|
      invariant forall k :: 0 <= k < idx ==> loaded[k] != groupId
    {
      idx := idx + 1;
    }
    if idx < |loaded| {
      IndexOfFirst(loaded, groupId, idx);
    } else {
      assert loaded[..idx] == loaded;
      idx := -1;
    }
  }

  /** `for (const file of group.files.values()) fileCache.delete(file.path)` */
  method DeleteFilePaths(cache: FileCache, files: seq<(string, FileMetadata)>) returns (r: FileCache)
    requires UniqueKeys(cache)
    ensures r == DeleteAll(cache, FilePaths(files))
  {
    var paths := FilePaths(files);
    r := cache;
    var j := 0;
    assert paths[..0] == [];
    while j < |files|
      invariant 0 <= j <= |files|
      invariant r == DeleteAll(cache, paths[..j])
    {
      DeleteAllAppend(cache, paths[..j], files[j].1.path);
      assert paths[..j + 1] == paths[..j] + [files[j].1.path];
      r := Delete(r, files[j].1.path);
      j := j + 1;
    }
    assert paths[..j] == paths;
  }

  /** The loop of evictOldGroups: how many ids it shifts off the front and
      the cache left once the files of each shifted group are dropped. */
  method EvictFromCache(groups: Groups, loaded: seq<string>, fileCache: FileCache) returns (shifted: nat, cache: FileCache)
    requires UniqueKeys(fileCache)
    ensures shifted == Overflow(loaded)
    ensures cache == DeleteAll(fileCache, EvictedPaths(groups, loaded[..shifted]))
  {
    cache := fileCache;
    shifted := 0;
    assert loaded[..0] == [];
    while |loaded| - shifted > MaxCachedGroups
      invariant 0 <= shifted <= Overflow(loaded)
      invariant UniqueKeys(cache)
      invariant cache == DeleteAll(fileCache, EvictedPaths(groups, loaded[..shifted]))
    {
      var oldestGroupId := loaded[shifted];
      ghost var before := EvictedPaths(groups, loaded[..shifted]);
      ghost var next := loaded[..shifted + 1];
      assert next[..|next| - 1] == loaded[..shifted] && next[|next| - 1] == oldestGroupId;
      shifted := shifted + 1;
      var group := if oldestGroupId != "" then Get(groups, oldestGroupId) else None;
      if group.Some? {
        assert EvictedPaths(groups, next) == before + FilePaths(group.value.files);
        cache := DeleteFilePaths(cache, group.value.files);
        DeleteAllConcat(fileCache, before, FilePaths(group.value.files));
      } else {
        assert EvictedPaths(groups, next) == before + [];
        assert before + [] == before;
      }
    }
  }

  /** The active group after removing `groupId`: kept unless it was the
      removed one, which hands over to the first remaining group (none when
      there is none or its id is empty). */
  function ActiveAfterRemove(active: Option<string>, groupId: string, remaining: Groups): Option<string> {
    if active != Some(groupId) then active
    else if remaining != [] && remaining[0].0 != "" then Some(remaining[0].0)
    else None
  }

  /** The updates of removeGroup besides the LRU list: the group's files
      leave the cache, the group leaves the map, and an active group that
      was removed hands over to the first remaining one (none when there is
      none or its id is empty). */
  method DropGroup(groups: Groups, fileCache: FileCache, activeGroupId: Option<string>, groupId: string, group: TranslationGroup)
    returns (gs: Groups, cache: FileCache, active: Option<string>)
    requires GroupsWellFormed(groups) && UniqueKeys(fileCache)
    requires Get(groups, groupId) == Some(group)
    ensures GroupsWellFormed(gs) && UniqueKeys(cache)
    ensures gs == Delete(groups, groupId)
    ensures cache == DeleteAll(fileCache, FilePaths(group.files))
    ensures active == ActiveAfterRemove(activeGroupId, groupId, gs)
  {
    cache := DeleteFilePaths(fileCache, group.files);
    gs := Delete(groups, groupId);
    active := activeGroupId;
    if activeGroupId == Some(groupId) {
      var remaining := Keys(gs);
      active := if |remaining| > 0 && remaining[0] != "" then Some(remaining[0]) else None;
    }
  }

  /** The two updates of removeFileFromGroup: the group loses the language's
      file (and its source file for 'default'), the cache loses that file's
      data; an unknown group changes nothing. */
  method DropFile(groups: Groups, fileCache: FileCache, groupId: string, language: string) returns (gs: Groups, cache: FileCache)
    requires GroupsWellFormed(groups) && UniqueKeys(fileCache)
    ensures GroupsWellFormed(gs) && UniqueKeys(cache)
    ensures Get(groups, groupId).None? ==> gs == groups && cache == fileCache
    ensures Get(groups, groupId).Some? ==>
      var g := Get(groups, groupId).value;
      && gs == Put(groups, groupId, g.(
           files := Delete(g.files, language),
           sourceFile := if language == DefaultLanguage then None else g.sourceFile))
      && cache == match Get(g.files, language)
           case Some(f) => Delete(fileCache, f.path)
           case None => fileCache
  {
    gs, cache := groups, fileCache;
    var group := Get(groups, groupId);
    if group.Some? {
      var g := group.value;
      assert UniqueKeys(g.files);
      var file := Get(g.files, language);
      if file.Some? {
        cache := Delete(fileCache, file.value.path);
      }
      g := g.(files := Delete(g.files, language));
      if language == DefaultLanguage {
        g := g.(sourceFile := None);
      }
      PutUnique(groups, groupId, g);
      gs := Put(groups, groupId, g);
    }
  }

  /** After deleting the paths, exactly those paths are gone and every other
      entry keeps its data. */
  lemma {:induction false} DeleteAllLookup(cache: FileCache, paths: seq<string>, p: string)
    requires UniqueKeys(cache)
    ensures Get(DeleteAll(cache, paths), p) == if p in paths then None else Get(cache, p)
    decreases |paths|
  {
    if paths != [] {
      DeleteAllLookup(Delete(cache, paths[0]), paths[1..], p);
      assert p in paths <==> p == paths[0] || p in paths[1..];
    }
  }

  lemma DistinctSuffix(xs: seq<string>, k: nat)
    requires Distinct(xs) && k <= |xs|
    ensures Distinct(xs[k..])
  {
    forall i, j | 0 <= i < j < |xs| - k ensures xs[k..][i] != xs[k..][j] {
      assert xs[k..][i] == xs[k + i] && xs[k..][j] == xs[k + j];
    }
  }

  lemma {:induction false} DeleteAllConcat(cache: FileCache, a: seq<string>, b: seq<string>)
    requires UniqueKeys(cache)
    ensures DeleteAll(cache, a + b) == DeleteAll(DeleteAll(cache, a), b)
    decreases |a|
  {
    if a == [] {
      assert a + b == b;
    } else {
      assert (a + b)[1..] == a[1..] + b;
      DeleteAllConcat(Delete(cache, a[0]), a[1..], b);
    }
  }

  lemma {:induction false} DeleteAllAppend(cache: FileCache, paths: seq<string>, p: string)
    requires UniqueKeys(cache)
    ensures DeleteAll(cache, paths + [p]) == Delete(DeleteAll(cache, paths), p)
    decreases |paths|
  {
    if paths == [] {
      assert ([] + [p])[1..] == [];
    } else {
      assert (paths + [p])[1..] == paths[1..] + [p];
      DeleteAllAppend(Delete(cache, paths[0]), paths[1..], p);
    }
  }
}
