// The Go backend's workspace indexer (services/workspace.go): the TYPO3
// file-name parser, the directory walk that groups XLIFF files by
// directory and base name, and the two in-place exchange sorts.
//
// The file system is a `Node` tree. `filepath.WalkDir` visits it in
// pre-order with each directory's entries in the order given, which stands
// for the lexical order `os.ReadDir` returns. The walk is a function of the
// tree; the scan is a method folding its visits into a map and a counter.

module GoWorkspace {
  import opened Common

  const DefaultLanguage := "default"

  datatype T3FileMetadata = T3FileMetadata(path: string, name: string, language: string, baseName: string, directory: string)

  datatype TranslationGroup = TranslationGroup(
    id: string,
    baseName: string,
    directory: string,
    files: map<string, T3FileMetadata>,
    sourceFile: Option<T3FileMetadata>)

  datatype WorkspaceScan = WorkspaceScan(rootPath: string, groups: seq<TranslationGroup>, totalFiles: nat)

  // ---------------------------------------------------------------------
  // ParseT3FileName
  // ---------------------------------------------------------------------

  predicate IsAsciiLower(c: char) {
    'a' <= c <= 'z'
  }

  predicate IsLanguageCode(s: string) {
    |s| == 2 && IsAsciiLower(s[0]) && IsAsciiLower(s[1])
  }

  /** Every character matches RE2's `.`, which excludes only the newline. */
  predicate NoNewline(s: string) {
    forall i :: 0 <= i < |s| ==> s[i] != '\n'
  }

  /**
   * `^([a-z]{2})\.(.+)\.xlf$`: since `$` anchors the final `.xlf`, the
   * greedy middle group is exactly what lies between the third character
   * and the last four.
   */
  predicate MatchesT3Pattern(name: string) {
    |name| >= 8 && IsLanguageCode(name[..2]) && name[2] == '.' && HasSuffix(name, ".xlf")
    && NoNewline(name[3..|name| - 4])
  }

  datatype ParsedName = ParsedName(language: string, baseName: string)

  function ParseT3FileName(name: string): (r: ParsedName)
    ensures r.language == DefaultLanguage || IsLanguageCode(r.language)
    ensures r.language != DefaultLanguage ==>
      r.baseName != "" && NoNewline(r.baseName) && name == r.language + "." + r.baseName + ".xlf"
    ensures r.language == DefaultLanguage && HasSuffix(name, ".xlf") ==> name == r.baseName + ".xlf"
    ensures !HasSuffix(name, ".xlf") && HasSuffix(name, ".xliff") ==> r == ParsedName(DefaultLanguage, name[..|name| - 6])
    ensures !HasSuffix(name, ".xlf") && !HasSuffix(name, ".xliff") ==> r == ParsedName(DefaultLanguage, name)
  {
    if MatchesT3Pattern(name) then
      assert name == name[..2] + "." + name[3..|name| - 4] + ".xlf";
      ParsedName(name[..2], name[3..|name| - 4])
    else if HasSuffix(name, ".xlf") then ParsedName(DefaultLanguage, TrimSuffix(name, ".xlf"))
    else if HasSuffix(name, ".xliff") then ParsedName(DefaultLanguage, TrimSuffix(name, ".xliff"))
    else ParsedName(DefaultLanguage, name)
  }

  /** The converse of the language case: every `<code>.<base>.xlf` name parses back to its parts. */
  lemma ParseLanguagePrefixed(code: string, base: string)
    requires IsLanguageCode(code) && base != "" && NoNewline(base)
    ensures ParseT3FileName(code + "." + base + ".xlf") == ParsedName(code, base)
  {
    var name := code + "." + base + ".xlf";
    assert name[..2] == code && name[3..|name| - 4] == base;
  }

  /** The greedy middle keeps inner dots. */
  lemma ParseGreedyMiddle()
    ensures ParseT3FileName("de.a.b.xlf") == ParsedName("de", "a.b")
  {
    ParseLanguagePrefixed("de", "a.b");
    assert "de.a.b.xlf" == "de" + "." + "a.b" + ".xlf";
  }

  /** A bare language code is a base name, and ".xlf" alone has an empty one. */
  lemma ParseShortNames()
    ensures ParseT3FileName("de.xlf") == ParsedName(DefaultLanguage, "de")
    ensures ParseT3FileName(".xlf") == ParsedName(DefaultLanguage, "")
    ensures ParseT3FileName("x.xliff") == ParsedName(DefaultLanguage, "x")
  {
  }

  /** A newline in the middle defeats the pattern. */
  lemma ParseNewlineInMiddle()
    ensures ParseT3FileName("de.a\n.xlf") == ParsedName(DefaultLanguage, "de.a\n")
  {
    var name := "de.a\n.xlf";
    assert name[3..|name| - 4][1] == '\n';
    assert !MatchesT3Pattern(name);
  }

  // ---------------------------------------------------------------------
  // Paths
  // ---------------------------------------------------------------------

  /** `filepath.Join(a, b)` with '/' separators; empty elements are ignored. */
  function PathJoin(a: string, b: string): string {
    if a == "" then b
    else if b == "" then a
    else if HasSuffix(a, "/") then a + b
    else a + "/" + b
  }

  /** `filepath.Dir(p)`: everything before the last '/', "." without one, "/" for a top-level path. */
  function GoDir(p: string): string {
    var i := LastIndexOf(p, '/');
    if i == -1 then "." else if i == 0 then "/" else p[..i]
  }

  predicate IsXliffName(name: string) {
    HasSuffix(name, ".xlf") || HasSuffix(name, ".xliff")
  }

  predicate IsHidden(name: string) {
    HasPrefix(name, ".")
  }

  // ---------------------------------------------------------------------
  // The walk
  // ---------------------------------------------------------------------

  /** A directory entry: a directory (readable or not) with its entries, or anything else. */
  datatype Node = File(name: string) | Dir(name: string, readable: bool, children: seq<Node>)

  /** One call of the walk callback on a non-directory entry; `relDir` is "" for the root itself. */
  datatype Visit = Visit(path: string, name: string, directory: string, relDir: string)

  /**
   * The callback's view of `filepath.WalkDir` below a directory: a hidden
   * directory is skipped before it is read, an unreadable one ends the walk
   * with an error, otherwise its entries are walked in order.
   */
  function WalkDirectory(path: string, rel: string, d: Node): Result<seq<Visit>>
    requires d.Dir?
    decreases d, 1
  {
    if IsHidden(d.name) then Ok([])
    else if !d.readable then Err("open " + path + ": permission denied")
    else WalkEntries(path, rel, d.children)
  }

  function WalkEntries(dir: string, rel: string, entries: seq<Node>): Result<seq<Visit>>
    decreases entries, 0
  {
    if entries == [] then Ok([])
    else
      var e := entries[0];
      var first :=
        if e.File? then Ok([Visit(PathJoin(dir, e.name), e.name, dir, rel)])
        else WalkDirectory(PathJoin(dir, e.name), PathJoin(rel, e.name), e);
      if first.Err? then first
      else
        var rest := WalkEntries(dir, rel, entries[1..]);
        if rest.Err? then rest else Ok(first.value + rest.value)
  }

  /** The whole walk: a missing root is an error; a root that is a file is visited alone. */
  function Walk(rootPath: string, root: Option<Node>): Result<seq<Visit>> {
    match root
    case None => Err("lstat " + rootPath + ": no such file or directory")
    case Some(n) =>
      if n.File? then Ok([Visit(rootPath, n.name, GoDir(rootPath), "..")])
      else WalkDirectory(rootPath, "", n)
  }

  /** Reference count: the XLIFF-named non-directory entries outside hidden directories. */
  function XliffCount(n: Node): nat
    decreases n, 1
  {
    match n
    case File(name) => if IsXliffName(name) then 1 else 0
    case Dir(name, _, cs) => if IsHidden(name) then 0 else XliffCountAll(cs)
  }

  function XliffCountAll(cs: seq<Node>): nat
    decreases cs, 0
  {
    if cs == [] then 0 else XliffCount(cs[0]) + XliffCountAll(cs[1..])
  }

  /** A directory the walk must read but cannot: not hidden, reached through non-hidden directories. */
  predicate Blocked(n: Node)
    decreases n, 1
  {
    n.Dir? && !IsHidden(n.name) && (!n.readable || BlockedAny(n.children))
  }

  predicate BlockedAny(cs: seq<Node>)
    decreases cs, 0
  {
    cs != [] && (Blocked(cs[0]) || BlockedAny(cs[1..]))
  }

  // ---------------------------------------------------------------------
  // Folding the visits
  // ---------------------------------------------------------------------

  datatype ScanState = ScanState(groups: map<string, TranslationGroup>, totalFiles: nat)

  function GroupKey(v: Visit): string {
    PathJoin(v.directory, ParseT3FileName(v.name).baseName)
  }

  /** The base name relative to the root, or the bare base name for the root directory. */
  function DisplayName(v: Visit): string {
    var base := ParseT3FileName(v.name).baseName;
    if v.relDir == "" then base else PathJoin(v.relDir, base)
  }

  function MetaOf(v: Visit): T3FileMetadata {
    var p := ParseT3FileName(v.name);
    T3FileMetadata(v.path, v.name, p.language, p.baseName, v.directory)
  }

  /** One run of the walk callback on a non-directory entry. */
  function AddFile(s: ScanState, v: Visit): ScanState {
    if !IsXliffName(v.name) then s
    else
      var key := GroupKey(v);
      var meta := MetaOf(v);
      var g := if key in s.groups then s.groups[key] else TranslationGroup(key, DisplayName(v), v.directory, map[], None);
      var g' := g.(files := g.files[meta.language := meta],
                   sourceFile := if meta.language == DefaultLanguage then Some(meta) else g.sourceFile);
      ScanState(s.groups[key := g'], s.totalFiles + 1)
  }

  /** The state after the callback has run on every visit, in order. */
  function Collect(vs: seq<Visit>): ScanState {
    if vs == [] then ScanState(map[], 0) else AddFile(Collect(vs[..|vs| - 1]), vs[|vs| - 1])
  }

  predicate GroupsSorted(gs: seq<TranslationGroup>) {
    forall i, j :: 0 <= i < j < |gs| ==> StrLe(gs[i].baseName, gs[j].baseName)
  }

  /** Every group is filed under its own id, and its source file is its "default" file. */
  ghost predicate WellFormed(groups: map<string, TranslationGroup>) {
    forall k :: k in groups ==>
      && groups[k].id == k
      && (forall l :: l in groups[k].files ==> groups[k].files[l].language == l)
      && groups[k].sourceFile == (if DefaultLanguage in groups[k].files then Some(groups[k].files[DefaultLanguage]) else None)
  }

  // ---------------------------------------------------------------------
  // ScanWorkspace
  // ---------------------------------------------------------------------

  method ScanWorkspace(rootPath: string, root: Option<Node>) returns (r: Result<WorkspaceScan>)
    ensures Walk(rootPath, root).Err? ==> r == Err(Walk(rootPath, root).error)
    ensures Walk(rootPath, root).Ok? ==>
      var s := Collect(Walk(rootPath, root).value);
      && r.Ok? && r.value.rootPath == rootPath
      && r.value.totalFiles == s.totalFiles
      && Distinct(r.value.groups)
      && (forall g :: g in r.value.groups <==> g in s.groups.Values)
      && GroupsSorted(r.value.groups)
  {
    var walk := Walk(rootPath, root);
    if walk.Err? {
      return Err(walk.error);
    }
    var groupMap, totalFiles := CollectVisits(walk.value);
    CollectWellFormed(walk.value);

    var collected := GroupValues(groupMap);
    var groups := new TranslationGroup[|collected|](i requires 0 <= i < |collected| => collected[i]);
    assert groups[..] == collected;
    SortGroups(groups);
    DistinctPermutation(collected, groups[..]);
    PermutationMembers(collected, groups[..]);
    return Ok(WorkspaceScan(rootPath, groups[..], totalFiles));
  }

  /** The walk callback for one visited entry: an XLIFF file is counted and
      filed in its group, which is created on first sight. */
  method AddVisit(groupMap: map<string, TranslationGroup>, totalFiles: nat, v: Visit)
    returns (groupMap': map<string, TranslationGroup>, totalFiles': nat)
    ensures ScanState(groupMap', totalFiles') == AddFile(ScanState(groupMap, totalFiles), v)
  {
    groupMap', totalFiles' := groupMap, totalFiles;
    if IsXliffName(v.name) {
      totalFiles' := totalFiles + 1;
      var parsed := ParseT3FileName(v.name);
      var groupKey := PathJoin(v.directory, parsed.baseName);
      assert groupKey == GroupKey(v);
      var group;
      if groupKey in groupMap {
        group := groupMap[groupKey];
      } else {
        var displayName := parsed.baseName;
        if v.relDir != "" {
          displayName := PathJoin(v.relDir, parsed.baseName);
        }
        assert displayName == DisplayName(v);
        group := TranslationGroup(groupKey, displayName, v.directory, map[], None);
      }
      var fileMeta := T3FileMetadata(v.path, v.name, parsed.language, parsed.baseName, v.directory);
      assert fileMeta == MetaOf(v);
      group := group.(files := group.files[parsed.language := fileMeta],
                      sourceFile := if parsed.language == DefaultLanguage then Some(fileMeta) else group.sourceFile);
      groupMap' := groupMap[groupKey := group];
    }
  }

  /** The callback run on every visit of the walk, in order. */
  method CollectVisits(visits: seq<Visit>) returns (groupMap: map<string, TranslationGroup>, totalFiles: nat)
    ensures ScanState(groupMap, totalFiles) == Collect(visits)
  {
    groupMap, totalFiles := map[], 0;
    for i := 0 to |visits|
      invariant ScanState(groupMap, totalFiles) == Collect(visits[..i])
    {
      assert visits[..i + 1][..i] == visits[..i];
      groupMap, totalFiles := AddVisit(groupMap, totalFiles, visits[i]);
    }
    assert visits[..|visits|] == visits;
  }

  /** `for _, group := range groupMap { groups = append(groups, group) }`, in whatever order the map yields. */
  method GroupValues(groupMap: map<string, TranslationGroup>) returns (groups: seq<TranslationGroup>)
    requires forall k :: k in groupMap ==> groupMap[k].id == k
    ensures |groups| == |groupMap|
    ensures Distinct(groups)
    ensures forall g :: g in groups <==> g in groupMap.Values
  {
    groups := [];
    ghost var taken: seq<string> := [];
    var remaining := groupMap.Keys;
    while remaining != {}
      invariant remaining <= groupMap.Keys
      invariant |groups| == |taken| && |taken| + |remaining| == |groupMap|
      invariant forall j :: 0 <= j < |taken| ==> taken[j] in groupMap && taken[j] !in remaining && groups[j] == groupMap[taken[j]]
      invariant forall k :: k in groupMap && k !in remaining ==> k in taken
      invariant Distinct(taken)
      decreases remaining
    {
      var k :| k in remaining;
      groups := groups + [groupMap[k]];
      taken := taken + [k];
      remaining := remaining - {k};
    }
    TakenGroups(groupMap, taken, groups);
  }

  /** Once every key is taken, the groups listed by key are the map's values,
      each once. */
  lemma TakenGroups(groupMap: map<string, TranslationGroup>, taken: seq<string>, groups: seq<TranslationGroup>)
    requires forall k :: k in groupMap ==> groupMap[k].id == k
    requires |groups| == |taken|
    requires forall j :: 0 <= j < |taken| ==> taken[j] in groupMap && groups[j] == groupMap[taken[j]]
    requires forall k :: k in groupMap ==> k in taken
    requires Distinct(taken)
    ensures Distinct(groups)
    ensures forall g :: g in groups <==> g in groupMap.Values
  {
    forall g | g in groupMap.Values ensures g in groups {
      var k :| k in groupMap && groupMap[k] == g;
      var j :| 0 <= j < |taken| && taken[j] == k;
      assert groups[j] == g;
    }
    assert forall p, q :: 0 <= p < q < |groups| ==> groups[p].id == taken[p] && groups[q].id == taken[q];
  }

  /** `for lang := range g.Files { languages = append(languages, lang) }`, in whatever order the map yields. */
  method LanguageKeys(files: map<string, T3FileMetadata>) returns (languages: seq<string>)
    ensures |languages| == |files|
    ensures Distinct(languages)
    ensures forall l :: l in languages <==> l in files
  {
    languages := [];
    var remaining := files.Keys;
    while remaining != {}
      invariant remaining <= files.Keys
      invariant |languages| + |remaining| == |files|
      invariant forall j :: 0 <= j < |languages| ==> languages[j] in files && languages[j] !in remaining
      invariant forall l :: l in files && l !in remaining ==> l in languages
      invariant Distinct(languages)
      decreases remaining
    {
      var l :| l in remaining;
      languages := languages + [l];
      remaining := remaining - {l};
    }
  }

  /** sortGroups: an exchange sort, swapping whenever an earlier name is greater. */
  method SortGroups(groups: array<TranslationGroup>)
    modifies groups
    ensures GroupsSorted(groups[..])
    ensures multiset(groups[..]) == multiset(old(groups[..]))
  {
    var i := 0;
    while i < groups.Length - 1
      invariant 0 <= i <= groups.Length
      invariant forall p, q :: 0 <= p < i && p < q < groups.Length ==> StrLe(groups[p].baseName, groups[q].baseName)
      invariant multiset(groups[..]) == multiset(old(groups[..]))
    {
      SortGroupsPass(groups, i);
      i := i + 1;
    }
  }

  /** One pass of sortGroups' outer loop: position `i` ends up holding a
      least base name of the rest, and the sorted prefix is kept. */
  method SortGroupsPass(groups: array<TranslationGroup>, i: int)
    requires 0 <= i < groups.Length
    requires forall p, q :: 0 <= p < i && p < q < groups.Length ==> StrLe(groups[p].baseName, groups[q].baseName)
    modifies groups
    ensures forall p, q :: 0 <= p <= i && p < q < groups.Length ==> StrLe(groups[p].baseName, groups[q].baseName)
    ensures multiset(groups[..]) == multiset(old(groups[..]))
  {
    var j := i + 1;
    while j < groups.Length
      invariant i + 1 <= j <= groups.Length
      invariant forall p, q :: 0 <= p < i && p < q < groups.Length ==> StrLe(groups[p].baseName, groups[q].baseName)
      invariant forall q :: i < q < j ==> StrLe(groups[i].baseName, groups[q].baseName)
      invariant multiset(groups[..]) == multiset(old(groups[..]))
    {
      var gi, gj := groups[i], groups[j];
      if !StrLe(gi.baseName, gj.baseName) {
        StrLeTotal(gi.baseName, gj.baseName);
        forall q | i < q < j ensures StrLe(gj.baseName, groups[q].baseName) {
          StrLeTransitive(gj.baseName, gi.baseName, groups[q].baseName);
        }
        groups[i], groups[j] := gj, gi;
      }
      j := j + 1;
    }
  }

  // ---------------------------------------------------------------------
  // GetGroupLanguages
  // ---------------------------------------------------------------------

  /** The order sortLanguages produces: "default" before everything, the rest by code point. */
  predicate LanguageLe(a: string, b: string) {
    a == DefaultLanguage || (b != DefaultLanguage && StrLe(a, b))
  }

  method GetGroupLanguages(g: TranslationGroup) returns (languages: seq<string>)
    ensures |languages| == |g.files|
    ensures forall l :: l in languages <==> l in g.files
    ensures Distinct(languages)
    ensures DefaultLanguage in g.files ==> languages[0] == DefaultLanguage
    ensures forall i, j :: 0 <= i < j < |languages| ==> LanguageLe(languages[i], languages[j])
  {
    var collected := LanguageKeys(g.files);
    var a := new string[|collected|](i requires 0 <= i < |collected| => collected[i]);
    assert a[..] == collected;
    SortLanguages(a);
    languages := a[..];
    DistinctPermutation(collected, languages);
    PermutationMembers(collected, languages);
    assert forall j :: 0 < j < |languages| ==> LanguageLe(languages[0], languages[j]) && languages[0] != languages[j];
  }

  /** sortLanguages: the exchange sort that swaps a later "default" forward, or a greater non-default name back. */
  method SortLanguages(languages: array<string>)
    modifies languages
    ensures forall i, j :: 0 <= i < j < languages.Length ==> LanguageLe(languages[i], languages[j])
    ensures multiset(languages[..]) == multiset(old(languages[..]))
  {
    var i := 0;
    while i < languages.Length - 1
      invariant 0 <= i <= languages.Length
      invariant forall p, q :: 0 <= p < i && p < q < languages.Length ==> LanguageLe(languages[p], languages[q])
      invariant multiset(languages[..]) == multiset(old(languages[..]))
    {
      SortLanguagesPass(languages, i);
      i := i + 1;
    }
  }

  /** One pass of sortLanguages' outer loop: position `i` ends up holding a
      least language of the rest, and the sorted prefix is kept. */
  method SortLanguagesPass(languages: array<string>, i: int)
    requires 0 <= i < languages.Length
    requires forall p, q :: 0 <= p < i && p < q < languages.Length ==> LanguageLe(languages[p], languages[q])
    modifies languages
    ensures forall p, q :: 0 <= p <= i && p < q < languages.Length ==> LanguageLe(languages[p], languages[q])
    ensures multiset(languages[..]) == multiset(old(languages[..]))
  {
    var j := i + 1;
    while j < languages.Length
      invariant i + 1 <= j <= languages.Length
      invariant forall p, q :: 0 <= p < i && p < q < languages.Length ==> LanguageLe(languages[p], languages[q])
      invariant forall q :: i < q < j ==> LanguageLe(languages[i], languages[q])
      invariant multiset(languages[..]) == multiset(old(languages[..]))
    {
      CompareLanguages(languages, i, j);
      j := j + 1;
    }
  }

  /** One comparison of sortLanguages: a "default" at `j` is swapped forward,
      as is a name before a non-default one at `i`; `i` then holds a least
      language of positions `i` to `j`. */
  method CompareLanguages(languages: array<string>, i: int, j: int)
    requires 0 <= i < j < languages.Length
    requires forall p, q :: 0 <= p < i && p < q < languages.Length ==> LanguageLe(languages[p], languages[q])
    requires forall q :: i < q < j ==> LanguageLe(languages[i], languages[q])
    modifies languages
    ensures forall p, q :: 0 <= p < i && p < q < languages.Length ==> LanguageLe(languages[p], languages[q])
    ensures forall q :: i < q <= j ==> LanguageLe(languages[i], languages[q])
    ensures multiset(languages[..]) == multiset(old(languages[..]))
  {
    var li, lj := languages[i], languages[j];
    if lj == DefaultLanguage || (li != DefaultLanguage && !StrLe(li, lj)) {
      ghost var b := languages[..];
      SwapKeepsOrder(b, i, j);
      languages[i], languages[j] := lj, li;
      assert languages[..] == b[i := lj][j := li];
    }
  }

  /** Swapping `i` and `j` when `j` holds a smaller language keeps the sorted
      prefix before `i`, and leaves at `i` a least language of `i` to `j`. */
  lemma SwapKeepsOrder(b: seq<string>, i: int, j: int)
    requires 0 <= i < j < |b|
    requires forall p, q :: 0 <= p < i && p < q < |b| ==> LanguageLe(b[p], b[q])
    requires forall q :: i < q < j ==> LanguageLe(b[i], b[q])
    requires b[j] == DefaultLanguage || (b[i] != DefaultLanguage && !StrLe(b[i], b[j]))
    ensures var c := b[i := b[j]][j := b[i]];
      && (forall p, q :: 0 <= p < i && p < q < |c| ==> LanguageLe(c[p], c[q]))
      && (forall q :: i < q <= j ==> LanguageLe(c[i], c[q]))
  {
    var c := b[i := b[j]][j := b[i]];
    forall p, q | 0 <= p < i && p < q < |c| ensures LanguageLe(c[p], c[q]) {
      assert c[p] == b[p];
      assert c[q] == b[if q == i then j else if q == j then i else q];
    }
    if b[j] != DefaultLanguage {
      StrLeTotal(b[i], b[j]);
      forall q | i < q < j ensures LanguageLe(b[j], b[q]) {
        StrLeTransitive(b[j], b[i], b[q]);
      }
    }
  }

  // ---------------------------------------------------------------------
  // What the scan computes
  // ---------------------------------------------------------------------

  /** An XLIFF visit that lands in group `k`. */
  ghost predicate FileOf(v: Visit, k: string) {
    IsXliffName(v.name) && GroupKey(v) == k
  }

  ghost predicate FileOfIn(v: Visit, k: string, l: string) {
    FileOf(v, k) && ParseT3FileName(v.name).language == l
  }

  function CountXliff(vs: seq<Visit>): nat {
    if vs == [] then 0 else CountXliff(vs[..|vs| - 1]) + (if IsXliffName(vs[|vs| - 1].name) then 1 else 0)
  }

  lemma {:induction false} CountXliffAppend(a: seq<Visit>, b: seq<Visit>)
    ensures CountXliff(a + b) == CountXliff(a) + CountXliff(b)
    decreases |b|
  {
    if b != [] {
      var b' := b[..|b| - 1];
      assert (a + b)[..|a + b| - 1] == a + b';
      CountXliffAppend(a, b');
    } else {
      assert a + b == a;
    }
  }

  lemma {:induction false} CollectCounts(vs: seq<Visit>)
    ensures Collect(vs).totalFiles == CountXliff(vs)
  {
    if vs != [] {
      CollectCounts(vs[..|vs| - 1]);
    }
  }

  lemma {:induction false} WalkDirectoryCounts(path: string, rel: string, d: Node)
    requires d.Dir?
    ensures WalkDirectory(path, rel, d).Ok? ==> CountXliff(WalkDirectory(path, rel, d).value) == XliffCount(d)
    ensures WalkDirectory(path, rel, d).Err? <==> Blocked(d)
    decreases d, 1
  {
    if !IsHidden(d.name) && d.readable {
      WalkEntriesCounts(path, rel, d.children);
    }
  }

  lemma {:induction false} WalkEntriesCounts(dir: string, rel: string, entries: seq<Node>)
    ensures WalkEntries(dir, rel, entries).Ok? ==> CountXliff(WalkEntries(dir, rel, entries).value) == XliffCountAll(entries)
    ensures WalkEntries(dir, rel, entries).Err? <==> BlockedAny(entries)
    decreases entries, 0
  {
    if entries != [] {
      var e := entries[0];
      if e.Dir? {
        WalkDirectoryCounts(PathJoin(dir, e.name), PathJoin(rel, e.name), e);
      } else {
        var v := Visit(PathJoin(dir, e.name), e.name, dir, rel);
        assert [v][..0] == [];
      }
      WalkEntriesCounts(dir, rel, entries[1..]);
      var first :=
        if e.File? then Ok([Visit(PathJoin(dir, e.name), e.name, dir, rel)])
        else WalkDirectory(PathJoin(dir, e.name), PathJoin(rel, e.name), e);
      var rest := WalkEntries(dir, rel, entries[1..]);
      if first.Ok? && rest.Ok? {
        CountXliffAppend(first.value, rest.value);
      }
    }
  }

  /**
   * totalFiles counts exactly the XLIFF-named non-directory entries outside
   * hidden directories, and the walk fails exactly when some directory it
   * must read is unreadable.
   */
  lemma ScanCountsTree(rootPath: string, d: Node)
    requires d.Dir?
    ensures Walk(rootPath, Some(d)).Err? <==> Blocked(d)
    ensures Walk(rootPath, Some(d)).Ok? ==> Collect(Walk(rootPath, Some(d)).value).totalFiles == XliffCount(d)
  {
    WalkDirectoryCounts(rootPath, "", d);
    if Walk(rootPath, Some(d)).Ok? {
      CollectCounts(Walk(rootPath, Some(d)).value);
    }
  }

  /** A root whose own name starts with "." is skipped whole: no error, no files. */
  lemma HiddenRootIsEmpty(rootPath: string, name: string, readable: bool, cs: seq<Node>)
    requires IsHidden(name)
    ensures Walk(rootPath, Some(Dir(name, readable, cs))) == Ok([])
    ensures Collect([]).totalFiles == 0 && Collect([]).groups == map[]
  {
  }

  lemma {:induction false} CollectWellFormed(vs: seq<Visit>)
    ensures WellFormed(Collect(vs).groups)
  {
    if vs != [] {
      CollectWellFormed(vs[..|vs| - 1]);
    }
  }

  /** A group exists exactly for the keys some XLIFF file was filed under. */
  lemma CollectGroupExists(vs: seq<Visit>, k: string)
    ensures k in Collect(vs).groups <==> exists i :: 0 <= i < |vs| && FileOf(vs[i], k)
  {
    if k in Collect(vs).groups {
      CollectGroupSource(vs, k);
    }
    if exists i :: 0 <= i < |vs| && FileOf(vs[i], k) {
      var i :| 0 <= i < |vs| && FileOf(vs[i], k);
      CollectGroupHas(vs, i, k);
    }
  }

  /** Every group was created by some XLIFF file filed under its key. */
  lemma {:induction false} CollectGroupSource(vs: seq<Visit>, k: string)
    requires k in Collect(vs).groups
    ensures exists i :: 0 <= i < |vs| && FileOf(vs[i], k)
  {
    var init, last := vs[..|vs| - 1], vs[|vs| - 1];
    assert Collect(vs) == AddFile(Collect(init), last);
    AddFileEffect(Collect(init), last, k);
    if !FileOf(last, k) {
      CollectGroupSource(init, k);
      var i :| 0 <= i < |init| && FileOf(init[i], k);
      assert vs[i] == init[i];
    } else {
      assert FileOf(vs[|vs| - 1], k);
    }
  }

  /** A key some XLIFF file was filed under has a group, and keeps it. */
  lemma {:induction false} CollectGroupHas(vs: seq<Visit>, i: int, k: string)
    requires 0 <= i < |vs| && FileOf(vs[i], k)
    ensures k in Collect(vs).groups
  {
    var init, last := vs[..|vs| - 1], vs[|vs| - 1];
    var s := Collect(init);
    if i < |init| {
      assert init[i] == vs[i];
      CollectGroupHas(init, i, k);
    } else {
      assert FileOf(last, k);
    }
    AddFileEffect(s, last, k);
    assert Collect(vs) == AddFile(s, last);
  }

  /** The first file filed under a key fixes the group's id, directory and display name. */
  lemma {:induction false} CollectGroupHeader(vs: seq<Visit>, i: int, k: string)
    requires 0 <= i < |vs| && FileOf(vs[i], k)
    requires forall j :: 0 <= j < i ==> !FileOf(vs[j], k)
    ensures k in Collect(vs).groups
    ensures Collect(vs).groups[k].id == k
    ensures Collect(vs).groups[k].directory == vs[i].directory
    ensures Collect(vs).groups[k].baseName == DisplayName(vs[i])
  {
    var init, last := vs[..|vs| - 1], vs[|vs| - 1];
    var s := Collect(init);
    if i == |vs| - 1 {
      forall j | 0 <= j < |init| ensures !FileOf(init[j], k) {
        assert init[j] == vs[j];
      }
      CollectGroupExists(init, k);
    } else {
      assert init[i] == vs[i];
      forall j | 0 <= j < i ensures !FileOf(init[j], k) {
        assert init[j] == vs[j];
      }
      CollectGroupHeader(init, i, k);
    }
    AddFileHeader(s, last, k);
    assert Collect(vs) == AddFile(s, last);
  }

  /** One callback run keeps an existing group's header, and gives a group
      it creates the key as id, the file's directory and display name. */
  lemma AddFileHeader(s: ScanState, v: Visit, k: string)
    ensures k in s.groups ==>
      && k in AddFile(s, v).groups
      && AddFile(s, v).groups[k].id == s.groups[k].id
      && AddFile(s, v).groups[k].directory == s.groups[k].directory
      && AddFile(s, v).groups[k].baseName == s.groups[k].baseName
    ensures k !in s.groups && FileOf(v, k) ==>
      && k in AddFile(s, v).groups
      && AddFile(s, v).groups[k].id == k
      && AddFile(s, v).groups[k].directory == v.directory
      && AddFile(s, v).groups[k].baseName == DisplayName(v)
  {
  }

  /** What one callback run does to group `k`. */
  lemma AddFileEffect(s: ScanState, v: Visit, k: string)
    ensures !FileOf(v, k) ==> (k in AddFile(s, v).groups <==> k in s.groups)
    ensures !FileOf(v, k) && k in s.groups ==> AddFile(s, v).groups[k] == s.groups[k]
    ensures FileOf(v, k) ==>
      && k in AddFile(s, v).groups
      && AddFile(s, v).groups[k].files == (if k in s.groups then s.groups[k].files else map[])[MetaOf(v).language := MetaOf(v)]
  {
    if IsXliffName(v.name) {
      var key := GroupKey(v);
      var meta := MetaOf(v);
      var g := if key in s.groups then s.groups[key] else TranslationGroup(key, DisplayName(v), v.directory, map[], None);
      var g' := g.(files := g.files[meta.language := meta],
                   sourceFile := if meta.language == DefaultLanguage then Some(meta) else g.sourceFile);
      assert AddFile(s, v) == ScanState(s.groups[key := g'], s.totalFiles + 1);
    } else {
      assert AddFile(s, v) == s;
    }
  }

  /** A language is in a group's files exactly when some file of that group has it. */
  lemma CollectGroupFiles(vs: seq<Visit>, k: string, l: string)
    requires k in Collect(vs).groups
    ensures l in Collect(vs).groups[k].files <==> exists i :: 0 <= i < |vs| && FileOfIn(vs[i], k, l)
  {
    if l in Collect(vs).groups[k].files {
      CollectFileSource(vs, k, l);
    }
    if exists i :: 0 <= i < |vs| && FileOfIn(vs[i], k, l) {
      var i :| 0 <= i < |vs| && FileOfIn(vs[i], k, l);
      CollectFileHas(vs, i, k, l);
    }
  }

  /** Every language of a group's files came from a file of that group. */
  lemma {:induction false} CollectFileSource(vs: seq<Visit>, k: string, l: string)
    requires k in Collect(vs).groups && l in Collect(vs).groups[k].files
    ensures exists i :: 0 <= i < |vs| && FileOfIn(vs[i], k, l)
  {
    var init, v := vs[..|vs| - 1], vs[|vs| - 1];
    var s := Collect(init);
    assert Collect(vs) == AddFile(s, v);
    AddFileEffect(s, v, k);
    if FileOfIn(v, k, l) {
      assert FileOfIn(vs[|vs| - 1], k, l);
    } else {
      assert k in s.groups && l in s.groups[k].files;
      CollectFileSource(init, k, l);
      var i :| 0 <= i < |init| && FileOfIn(init[i], k, l);
      assert vs[i] == init[i];
    }
  }

  /** A file of a group puts its language in the group's files, for good. */
  lemma {:induction false} CollectFileHas(vs: seq<Visit>, i: int, k: string, l: string)
    requires 0 <= i < |vs| && FileOfIn(vs[i], k, l)
    ensures k in Collect(vs).groups && l in Collect(vs).groups[k].files
  {
    var init, v := vs[..|vs| - 1], vs[|vs| - 1];
    var s := Collect(init);
    if i < |init| {
      assert init[i] == vs[i];
      CollectFileHas(init, i, k, l);
    } else {
      assert FileOfIn(v, k, l);
    }
    AddFileEffect(s, v, k);
    assert Collect(vs) == AddFile(s, v);
  }

  /** The last file of a group with a given language is the one its map entry keeps. */
  lemma {:induction false} CollectLastWins(vs: seq<Visit>, i: int, k: string, l: string)
    requires 0 <= i < |vs| && FileOfIn(vs[i], k, l)
    requires forall j :: i < j < |vs| ==> !FileOfIn(vs[j], k, l)
    ensures k in Collect(vs).groups && l in Collect(vs).groups[k].files
    ensures Collect(vs).groups[k].files[l] == MetaOf(vs[i])
  {
    var init := vs[..|vs| - 1];
    if i < |vs| - 1 {
      assert init[i] == vs[i];
      assert forall j :: i < j < |init| ==> init[j] == vs[j];
      CollectLastWins(init, i, k, l);
    }
  }
}
