/**
 * The dashboard's two computations (frontend/src/utils/dashboard.ts): the
 * language matrix, listing every language of the workspace and, per group,
 * whether the group has a file in it; and the list of units whose target is
 * missing, across every loaded translation file.
 */
module Dashboard {
  import opened Common
  import opened Types
  import WorkspaceStore

  /** A file of the file tree, and a group of files sharing a base name. */
  datatype T3File = T3File(name: string, path: string, language: string, baseName: string)

  datatype T3FileGroup = T3FileGroup(baseName: string, files: seq<T3File>)

  datatype LanguageStatus = Present | Missing

  /** A Map from language to status, and one from base name to such a map. */
  type StatusMap = seq<(string, LanguageStatus)>

  type Matrix = seq<(string, StatusMap)>

  // ---------------------------------------------------------------------
  // buildLanguageMatrix
  // ---------------------------------------------------------------------

  /** `group.files.map(f => f.language)` */
  function FileLanguages(files: seq<T3File>): (r: seq<string>)
    ensures |r| == |files|
    ensures forall i :: 0 <= i < |files| ==> r[i] == files[i].language
  {
    seq(|files|, i requires 0 <= i < |files| => files[i].language)
  }

  /** `fileGroups.flatMap(...)`: every file's language, group after group. */
  function AllLanguages(groups: seq<T3FileGroup>): seq<string> {
    if groups == [] then []
    else AllLanguages(groups[..|groups| - 1]) + FileLanguages(groups[|groups| - 1].files)
  }

  /** Some group has a file in language `l`. */
  ghost predicate InWorkspace(groups: seq<T3FileGroup>, l: string) {
    exists i :: 0 <= i < |groups| && l in FileLanguages(groups[i].files)
  }

  lemma {:induction false} AllLanguagesMembers(groups: seq<T3FileGroup>, l: string)
    ensures l in AllLanguages(groups) <==> InWorkspace(groups, l)
  {
    if groups != [] {
      var init := groups[..|groups| - 1];
      AllLanguagesMembers(init, l);
      if InWorkspace(groups, l) {
        var i :| 0 <= i < |groups| && l in FileLanguages(groups[i].files);
        if i < |groups| - 1 {
          assert groups[i] == init[i];
        }
      }
      if InWorkspace(init, l) {
        var i :| 0 <= i < |init| && l in FileLanguages(init[i].files);
        assert groups[i] == init[i];
      }
    }
  }

  /** The matrix's columns: `Array.from(new Set(...)).sort(...)`, whose
      comparator puts 'default' first and orders the rest by locale. */
  function MatrixLanguages(groups: seq<T3FileGroup>, le: (string, string) -> bool): seq<string>
    requires TotalPreorder(le)
  {
    SortBy(Dedup(AllLanguages(groups)), WorkspaceStore.LanguageOrder(le))
  }

  /** `present.has(lang) ? 'present' : 'missing'` */
  function Status(g: T3FileGroup, l: string): LanguageStatus {
    if l in FileLanguages(g.files) then Present else Missing
  }

  /** The map one group gets: `map.set(lang, ...)` for each language in turn. */
  function StatusRow(g: T3FileGroup, langs: seq<string>): StatusMap {
    if langs == [] then []
    else Put(StatusRow(g, langs[..|langs| - 1]), langs[|langs| - 1], Status(g, langs[|langs| - 1]))
  }

  /** `byGroup.set(group.baseName, map)` for each group in turn. */
  function ByGroup(groups: seq<T3FileGroup>, langs: seq<string>): Matrix {
    if groups == [] then []
    else
      var g := groups[|groups| - 1];
      Put(ByGroup(groups[..|groups| - 1], langs), g.baseName, StatusRow(g, langs))
  }

  /** The index of the last group named `b`, -1 when there is none. */
  function LastNamed(groups: seq<T3FileGroup>, b: string): (r: int)
    ensures -1 <= r < |groups|
    ensures r >= 0 ==> groups[r].baseName == b
    ensures forall i :: r < i < |groups| ==> groups[i].baseName != b
  {
    if groups == [] then -1
    else if groups[|groups| - 1].baseName == b then |groups| - 1
    else LastNamed(groups[..|groups| - 1], b)
  }

  /** buildLanguageMatrix. The loops are the two `forEach` calls; the set of
      a group's languages is looked up directly. */
  method BuildLanguageMatrix(groups: seq<T3FileGroup>, le: (string, string) -> bool)
    returns (languages: seq<string>, byGroup: Matrix)
    requires TotalPreorder(le)
    ensures languages == MatrixLanguages(groups, le)
    ensures byGroup == ByGroup(groups, languages)
  {
    languages := MatrixLanguages(groups, le);
    byGroup := [];
    var i := 0;
    while i < |groups|
      invariant 0 <= i <= |groups|
      invariant byGroup == ByGroup(groups[..i], languages)
    {
      var row := BuildStatusRow(groups[i], languages);
      assert groups[..i + 1][..i] == groups[..i];
      byGroup := Put(byGroup, groups[i].baseName, row);
      i := i + 1;
    }
    assert groups[..|groups|] == groups;
  }

  method BuildStatusRow(g: T3FileGroup, languages: seq<string>) returns (row: StatusMap)
    ensures row == StatusRow(g, languages)
  {
    var present := FileLanguages(g.files);
    row := [];
    var j := 0;
    while j < |languages|
      invariant 0 <= j <= |languages|
      invariant row == StatusRow(g, languages[..j])
    {
      assert languages[..j + 1][..j] == languages[..j];
      row := Put(row, languages[j], if languages[j] in present then Present else Missing);
      j := j + 1;
    }
    assert languages[..|languages|] == languages;
  }

  /** The columns hold each language of the workspace exactly once, sorted
      with 'default' before every other language. */
  lemma MatrixLanguagesShape(groups: seq<T3FileGroup>, le: (string, string) -> bool)
    requires TotalPreorder(le)
    ensures var r := MatrixLanguages(groups, le);
      && Distinct(r)
      && (forall l :: l in r <==> InWorkspace(groups, l))
      && SortedBy(r, WorkspaceStore.LanguageOrder(le))
      && (WorkspaceStore.DefaultLanguage in r ==> r[0] == WorkspaceStore.DefaultLanguage)
  {
    var order := WorkspaceStore.LanguageOrder(le);
    var d := Dedup(AllLanguages(groups));
    var r := SortBy(d, order);
    assert TotalPreorder(order);
    SortBySorted(d, order);
    DistinctPermutation(d, r);
    PermutationMembers(d, r);
    forall l ensures l in r <==> InWorkspace(groups, l) {
      AllLanguagesMembers(groups, l);
    }
    if WorkspaceStore.DefaultLanguage in r {
      SortedLeastFirst(r, order, WorkspaceStore.DefaultLanguage);
    }
  }

  /** A group's map lists exactly the given languages, each with its status. */
  lemma {:induction false} StatusRowGet(g: T3FileGroup, langs: seq<string>, l: string)
    ensures Get(StatusRow(g, langs), l) == if l in langs then Some(Status(g, l)) else None
  {
    if langs != [] {
      StatusRowGet(g, langs[..|langs| - 1], l);
      assert langs == langs[..|langs| - 1] + [langs[|langs| - 1]];
    }
  }

  /** With distinct languages the map's keys are the languages, in order. */
  lemma {:induction false} StatusRowKeys(g: T3FileGroup, langs: seq<string>)
    requires Distinct(langs)
    ensures Keys(StatusRow(g, langs)) == langs
  {
    if langs != [] {
      var init, last := langs[..|langs| - 1], langs[|langs| - 1];
      DistinctInit(langs);
      StatusRowKeys(g, init);
      assert StatusRow(g, langs) == Put(StatusRow(g, init), last, Status(g, last));
      assert langs == init + [last];
    }
  }

  /** The matrix row of a base name comes from the last group with that
      name; a name no group has has no row. */
  lemma {:induction false} ByGroupGet(groups: seq<T3FileGroup>, langs: seq<string>, b: string)
    ensures var i := LastNamed(groups, b);
      Get(ByGroup(groups, langs), b) == if i == -1 then None else Some(StatusRow(groups[i], langs))
  {
    if groups != [] {
      var init := groups[..|groups| - 1];
      ByGroupGet(init, langs, b);
      if groups[|groups| - 1].baseName != b {
        var i := LastNamed(init, b);
        assert i >= 0 ==> groups[i] == init[i];
      }
    }
  }

  /** What the dashboard reads: for the group that owns base name
      `groups[i].baseName`, every column says present exactly when the group
      has a file in that language, and other languages have no entry. */
  lemma MatrixStatus(groups: seq<T3FileGroup>, le: (string, string) -> bool, i: int, l: string)
    requires TotalPreorder(le)
    requires 0 <= i < |groups| && LastNamed(groups, groups[i].baseName) == i
    ensures var languages := MatrixLanguages(groups, le);
      var row := Get(ByGroup(groups, languages), groups[i].baseName);
      && row.Some?
      && Keys(row.value) == languages
      && Get(row.value, l) == if InWorkspace(groups, l) then Some(Status(groups[i], l)) else None
  {
    var languages := MatrixLanguages(groups, le);
    MatrixLanguagesShape(groups, le);
    ByGroupGet(groups, languages, groups[i].baseName);
    StatusRowKeys(groups[i], languages);
    StatusRowGet(groups[i], languages, l);
  }

  // ---------------------------------------------------------------------
  // collectMissingTranslations
  // ---------------------------------------------------------------------

  datatype MissingEntry = MissingEntry(id: string, source: string, language: string, filePath: string)

  /** `data.targetLanguage || data.language || ''` */
  function EntryLanguage(d: FileData): string {
    if d.targetLanguage != "" then d.targetLanguage
    else if d.language != "" then d.language
    else ""
  }

  /** `!unit.target || String(unit.target).trim() === ''` */
  predicate TargetMissing(u: TranslationUnit) {
    u.target == "" || Trim(u.target) == ""
  }

  function EntryFor(u: TranslationUnit, language: string, path: string): MissingEntry {
    MissingEntry(u.id, u.source, language, path)
  }

  /** The entries one file contributes. */
  function UnitsMissing(units: seq<TranslationUnit>, language: string, path: string): seq<MissingEntry> {
    if units == [] then []
    else
      var u := units[|units| - 1];
      UnitsMissing(units[..|units| - 1], language, path) + if TargetMissing(u) then [EntryFor(u, language, path)] else []
  }

  function FileMissing(path: string, d: FileData): seq<MissingEntry> {
    if d.isSourceOnly then [] else UnitsMissing(d.units, EntryLanguage(d), path)
  }

  /** The entries of the map's files, in its order. */
  function CollectMissing(fileDataMap: seq<(string, FileData)>): seq<MissingEntry> {
    if fileDataMap == [] then []
    else
      var e := fileDataMap[|fileDataMap| - 1];
      CollectMissing(fileDataMap[..|fileDataMap| - 1]) + FileMissing(e.0, e.1)
  }

  /** collectMissingTranslations. */
  method CollectMissingTranslations(fileDataMap: seq<(string, FileData)>) returns (missing: seq<MissingEntry>)
    ensures missing == CollectMissing(fileDataMap)
  {
    missing := [];
    var k := 0;
    while k < |fileDataMap|
      invariant 0 <= k <= |fileDataMap|
      invariant missing == CollectMissing(fileDataMap[..k])
    {
      var (path, data) := fileDataMap[k];
      assert fileDataMap[..k + 1][..k] == fileDataMap[..k];
      if !data.isSourceOnly {
        var language := EntryLanguage(data);
        var found := CollectUnits(data.units, language, path);
        missing := missing + found;
      }
      k := k + 1;
    }
    assert fileDataMap[..|fileDataMap|] == fileDataMap;
  }

  method CollectUnits(units: seq<TranslationUnit>, language: string, path: string) returns (found: seq<MissingEntry>)
    ensures found == UnitsMissing(units, language, path)
  {
    found := [];
    var j := 0;
    while j < |units|
      invariant 0 <= j <= |units|
      invariant found == UnitsMissing(units[..j], language, path)
    {
      assert units[..j + 1][..j] == units[..j];
      if units[j].target == "" || Trim(units[j].target) == "" {
        found := found + [EntryFor(units[j], language, path)];
      }
      j := j + 1;
    }
    assert units[..|units|] == units;
  }

  /** One file contributes one entry per unit with a missing target, in unit
      order: its entries are exactly the filtered units. */
  lemma {:induction false} UnitsMissingIsFilter(units: seq<TranslationUnit>, language: string, path: string)
    ensures var m := UnitsMissing(units, language, path);
      var f := FilterLast(units);
      |m| == |f| && forall i :: 0 <= i < |f| ==> m[i] == EntryFor(f[i], language, path)
  {
    if units != [] {
      UnitsMissingIsFilter(units[..|units| - 1], language, path);
    }
  }

  /** `units.filter(TargetMissing)`, written from the end. */
  function FilterLast(units: seq<TranslationUnit>): (r: seq<TranslationUnit>)
    ensures forall u :: u in r <==> u in units && TargetMissing(u)
  {
    if units == [] then []
    else
      var init := units[..|units| - 1];
      var u := units[|units| - 1];
      assert forall x :: x in units <==> x in init || x == u;
      FilterLast(init) + if TargetMissing(u) then [u] else []
  }

  /** Every entry comes from a file that is not source-only, carries its
      path and its language, and names a unit of it whose target is missing. */
  ghost predicate EntryFrom(e: MissingEntry, path: string, d: FileData) {
    && !d.isSourceOnly
    && e.filePath == path
    && e.language == EntryLanguage(d)
    && exists u :: u in d.units && TargetMissing(u) && e == EntryFor(u, e.language, path)
  }

  lemma {:induction false} UnitsMissingMembers(units: seq<TranslationUnit>, language: string, path: string, e: MissingEntry)
    ensures e in UnitsMissing(units, language, path) <==>
      exists u :: u in units && TargetMissing(u) && e == EntryFor(u, language, path)
  {
    if units != [] {
      var init := units[..|units| - 1];
      UnitsMissingMembers(init, language, path, e);
      assert forall x :: x in units <==> x in init || x == units[|units| - 1];
    }
  }

  /** A file's entries are exactly those that come from it. */
  lemma FileMissingMembers(path: string, d: FileData, e: MissingEntry)
    ensures e in FileMissing(path, d) <==> EntryFrom(e, path, d)
  {
    if !d.isSourceOnly {
      UnitsMissingMembers(d.units, EntryLanguage(d), path, e);
    }
  }

  /** The result holds an entry exactly when some file that is not
      source-only has a unit with a missing target that it describes. */
  lemma CollectMissingMembers(fileDataMap: seq<(string, FileData)>, e: MissingEntry)
    ensures e in CollectMissing(fileDataMap) <==>
      exists k :: 0 <= k < |fileDataMap| && EntryFrom(e, fileDataMap[k].0, fileDataMap[k].1)
  {
    if e in CollectMissing(fileDataMap) {
      CollectMissingSource(fileDataMap, e);
    }
    if exists k :: 0 <= k < |fileDataMap| && EntryFrom(e, fileDataMap[k].0, fileDataMap[k].1) {
      var k :| 0 <= k < |fileDataMap| && EntryFrom(e, fileDataMap[k].0, fileDataMap[k].1);
      CollectMissingHas(fileDataMap, e, k);
    }
  }

  /** Every entry of the result comes from a file of the map. */
  lemma {:induction false} CollectMissingSource(fileDataMap: seq<(string, FileData)>, e: MissingEntry)
    requires e in CollectMissing(fileDataMap)
    ensures exists k :: 0 <= k < |fileDataMap| && EntryFrom(e, fileDataMap[k].0, fileDataMap[k].1)
  {
    var n := |fileDataMap| - 1;
    var init, last := fileDataMap[..n], fileDataMap[n];
    assert CollectMissing(fileDataMap) == CollectMissing(init) + FileMissing(last.0, last.1);
    if e in CollectMissing(init) {
      CollectMissingSource(init, e);
      var k :| 0 <= k < |init| && EntryFrom(e, init[k].0, init[k].1);
      assert init[k] == fileDataMap[k];
    } else {
      FileMissingMembers(last.0, last.1, e);
      assert EntryFrom(e, fileDataMap[n].0, fileDataMap[n].1);
    }
  }

  /** Every entry that comes from a file of the map is in the result. */
  lemma {:induction false} CollectMissingHas(fileDataMap: seq<(string, FileData)>, e: MissingEntry, k: int)
    requires 0 <= k < |fileDataMap| && EntryFrom(e, fileDataMap[k].0, fileDataMap[k].1)
    ensures e in CollectMissing(fileDataMap)
  {
    var n := |fileDataMap| - 1;
    var init, last := fileDataMap[..n], fileDataMap[n];
    assert CollectMissing(fileDataMap) == CollectMissing(init) + FileMissing(last.0, last.1);
    if k < n {
      assert init[k] == fileDataMap[k];
      CollectMissingHas(init, e, k);
    } else {
      FileMissingMembers(last.0, last.1, e);
    }
  }

  /** The unit test's groups: labels in default and de, messages in default
      and fr. */
  function TestGroups(): seq<T3FileGroup> {
    [T3FileGroup("labels", [T3File("default.labels.xlf", "/a/default.labels.xlf", "default", "labels"),
                            T3File("de.labels.xlf", "/a/de.labels.xlf", "de", "labels")]),
     T3FileGroup("messages", [T3File("default.messages.xlf", "/a/default.messages.xlf", "default", "messages"),
                              T3File("fr.messages.xlf", "/a/fr.messages.xlf", "fr", "messages")])]
  }

  lemma TestAllLanguages()
    ensures AllLanguages(TestGroups()) == ["default", "de", "default", "fr"]
  {
    var groups := TestGroups();
    assert FileLanguages(groups[0].files) == ["default", "de"];
    assert FileLanguages(groups[1].files) == ["default", "fr"];
    assert groups[..1][..0] == [];
    assert AllLanguages(groups[..1]) == ["default", "de"];
  }

  lemma TestLanguagesDeduplicated()
    ensures Dedup(AllLanguages(TestGroups())) == ["default", "de", "fr"]
  {
    TestAllLanguages();
    TestDedupHead();
    TestDedupTail();
  }

  lemma TestDedupHead()
    ensures DedupFrom([], ["default", "de", "default", "fr"]) == DedupFrom(["default", "de"], ["default", "fr"])
  {
    var all: seq<string> := ["default", "de", "default", "fr"];
    assert all[1..] == ["de", "default", "fr"];
    assert all[1..][1..] == ["default", "fr"];
    assert [] + [all[0]] == ["default"];
    assert DedupFrom([], all) == DedupFrom(["default"], all[1..]);
    assert ["default"] + [all[1..][0]] == ["default", "de"];
  }

  lemma TestDedupTail()
    ensures DedupFrom(["default", "de"], ["default", "fr"]) == ["default", "de", "fr"]
  {
    var rest: seq<string> := ["default", "fr"];
    assert rest[1..] == ["fr"];
    assert DedupFrom(["default", "de"], rest) == DedupFrom(["default", "de"], ["fr"]);
    assert ["default", "de"] + ["fr"] == ["default", "de", "fr"];
  }

  /** The comparator leaves the test's deduplicated languages in place. */
  lemma TestLanguagesSorted()
    ensures SortBy(["default", "de", "fr"], WorkspaceStore.LanguageOrder(CodePointOrder())) == ["default", "de", "fr"]
  {
    var d: seq<string> := ["default", "de", "fr"];
    var order := WorkspaceStore.LanguageOrder(CodePointOrder());
    assert d[..2] == ["default", "de"];
    assert SortBy(d, order) == InsertBy(SortBy(["default", "de"], order), "fr", order);
    TestSortFirstTwo();
    TestInsertLast();
  }

  lemma TestSortFirstTwo()
    ensures SortBy(["default", "de"], WorkspaceStore.LanguageOrder(CodePointOrder())) == ["default", "de"]
  {
    var d: seq<string> := ["default", "de"];
    var order := WorkspaceStore.LanguageOrder(CodePointOrder());
    assert d[..1] == ["default"] && d[..1][..0] == [];
    assert SortBy(d[..1], order) == ["default"];
    assert order("default", "de");
    assert InsertBy(["default"], "de", order) == ["default"] + InsertBy([], "de", order);
  }

  lemma TestInsertLast()
    ensures InsertBy(["default", "de"], "fr", WorkspaceStore.LanguageOrder(CodePointOrder())) == ["default", "de", "fr"]
  {
    var order := WorkspaceStore.LanguageOrder(CodePointOrder());
    assert StrLe("de", "fr");
    assert order("default", "fr") && order("de", "fr");
    assert ["default", "de"][1..] == ["de"] && ["de"][1..] == [];
    assert InsertBy(["de"], "fr", order) == ["de"] + InsertBy([], "fr", order);
    assert InsertBy(["default", "de"], "fr", order) == ["default"] + InsertBy(["de"], "fr", order);
  }

  /** The unit test's columns, under code-point order (on these ASCII codes
      the locale order agrees with it). */
  lemma TestMatrixLanguages()
    ensures TotalPreorder(CodePointOrder())
    ensures MatrixLanguages(TestGroups(), CodePointOrder()) == ["default", "de", "fr"]
  {
    StrLePreorder();
    TestLanguagesDeduplicated();
    TestLanguagesSorted();
  }

  /** The unit test's statuses: labels lacks fr, messages lacks de. */
  lemma TestMatrixStatuses()
    ensures var byGroup := ByGroup(TestGroups(), ["default", "de", "fr"]);
      && Get(byGroup, "labels").Some?
      && Get(Get(byGroup, "labels").value, "fr") == Some(Missing)
      && Get(byGroup, "messages").Some?
      && Get(Get(byGroup, "messages").value, "de") == Some(Missing)
  {
    var groups := TestGroups();
    var languages := ["default", "de", "fr"];
    ByGroupGet(groups, languages, "labels");
    ByGroupGet(groups, languages, "messages");
    TestStatusLabels();
    TestStatusMessages();
  }

  lemma TestStatusLabels()
    ensures LastNamed(TestGroups(), "labels") == 0
    ensures Get(StatusRow(TestGroups()[0], ["default", "de", "fr"]), "fr") == Some(Missing)
  {
    var g := TestGroups()[0];
    assert FileLanguages(g.files) == ["default", "de"];
    StatusRowGet(g, ["default", "de", "fr"], "fr");
  }

  lemma TestStatusMessages()
    ensures LastNamed(TestGroups(), "messages") == 1
    ensures Get(StatusRow(TestGroups()[1], ["default", "de", "fr"]), "de") == Some(Missing)
  {
    var g := TestGroups()[1];
    assert FileLanguages(g.files) == ["default", "fr"];
    StatusRowGet(g, ["default", "de", "fr"], "de");
  }

  /** The test's file data: one unit "a" with the given target. */
  function TestFileData(path: string, language: string, target: string): FileData {
    FileData(path, XliffDocument(Some("1.2"), []), [TranslationUnit("a", "A", target)],
      "en", language, "1.2", language, "labels", false)
  }

  lemma CollectMissingExample()
    ensures var m := CollectMissing([("/a/de.labels.xlf", TestFileData("/a/de.labels.xlf", "de", "")),
                                     ("/a/fr.messages.xlf", TestFileData("/a/fr.messages.xlf", "fr", "BB"))]);
      |m| == 1 && m[0].id == "a" && m[0].language == "de"
  {
    var de := TestFileData("/a/de.labels.xlf", "de", "");
    var fr := TestFileData("/a/fr.messages.xlf", "fr", "BB");
    assert Trim("BB") == "BB";
    assert UnitsMissing(fr.units, "fr", "/a/fr.messages.xlf") == [];
    assert UnitsMissing(de.units, "de", "/a/de.labels.xlf") == [MissingEntry("a", "A", "de", "/a/de.labels.xlf")];
    var m := [("/a/de.labels.xlf", de), ("/a/fr.messages.xlf", fr)];
    assert m[..1][..0] == [];
    assert CollectMissing(m[..1]) == [MissingEntry("a", "A", "de", "/a/de.labels.xlf")];
  }
}
