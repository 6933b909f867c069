// The React front end's file helpers (frontend/src/hooks/useFileOperations.ts):
// the TypeScript copy of the TYPO3 file-name parser, the extraction of an
// editor view from a parsed XLIFF document, and the directory listing
// passthrough. Reading and parsing the file are inputs: the parsed document
// arrives as a `Result`, whose error stands for any exception in the `try`.

module FileOperations {
  import opened Common
  import opened Types
  import GoWorkspace

  const DefaultLanguage := "default"

  /** The characters JavaScript's `.` does not match without the `s` flag. */
  predicate IsLineTerminator(c: char) {
    c == '\n' || c == '\r' || c == '\U{2028}' || c == '\U{2029}'
  }

  predicate NoLineTerminator(s: string) {
    forall i :: 0 <= i < |s| ==> !IsLineTerminator(s[i])
  }

  /** `/^([a-z]{2})\.(.+)\.xlf$/`: the middle group is what lies between the third character and the last four. */
  predicate MatchesLanguagePattern(name: string) {
    |name| >= 8 && GoWorkspace.IsLanguageCode(name[..2]) && name[2] == '.' && HasSuffix(name, ".xlf")
    && NoLineTerminator(name[3..|name| - 4])
  }

  /** `/^(.+)\.xlf$/` */
  predicate MatchesBasePattern(name: string) {
    |name| >= 5 && HasSuffix(name, ".xlf") && NoLineTerminator(name[..|name| - 4])
  }

  /**
   * parseT3FileName, shared verbatim by frontend/src/hooks/useFileOperations.ts,
   * frontend/src/hooks/useWorkspace.ts and src/hooks/useFileOperations.ts.
   */
  function ParseT3FileName(name: string): (r: GoWorkspace.ParsedName)
    ensures r.language == DefaultLanguage || GoWorkspace.IsLanguageCode(r.language)
    ensures r.language != DefaultLanguage ==>
      r.baseName != "" && NoLineTerminator(r.baseName) && name == r.language + "." + r.baseName + ".xlf"
    ensures r.language == DefaultLanguage && MatchesBasePattern(name) ==> name == r.baseName + ".xlf"
    ensures !MatchesBasePattern(name) ==> r == GoWorkspace.ParsedName(DefaultLanguage, name)
  {
    if MatchesLanguagePattern(name) then
      assert name == name[..2] + "." + name[3..|name| - 4] + ".xlf";
      assert name[..|name| - 4] == name[..2] + "." + name[3..|name| - 4];
      GoWorkspace.ParsedName(name[..2], name[3..|name| - 4])
    else if MatchesBasePattern(name) then
      GoWorkspace.ParsedName(DefaultLanguage, name[..|name| - 4])
    else GoWorkspace.ParsedName(DefaultLanguage, name)
  }

  /** The converse of the language case: every `<code>.<base>.xlf` name parses back to its parts. */
  lemma ParseLanguagePrefixed(code: string, base: string)
    requires GoWorkspace.IsLanguageCode(code) && base != "" && NoLineTerminator(base)
    ensures ParseT3FileName(code + "." + base + ".xlf") == GoWorkspace.ParsedName(code, base)
  {
    var name := code + "." + base + ".xlf";
    assert name[..2] == code && name[3..|name| - 4] == base;
  }

  /**
   * Where the TypeScript and Go parsers part: ".xliff" keeps its suffix here,
   * and ".xlf" alone is too short for `(.+)`.
   */
  lemma ParserDifferences()
    ensures ParseT3FileName("x.xliff") == GoWorkspace.ParsedName(DefaultLanguage, "x.xliff")
    ensures GoWorkspace.ParseT3FileName("x.xliff") == GoWorkspace.ParsedName(DefaultLanguage, "x")
    ensures ParseT3FileName(".xlf") == GoWorkspace.ParsedName(DefaultLanguage, ".xlf")
    ensures GoWorkspace.ParseT3FileName(".xlf") == GoWorkspace.ParsedName(DefaultLanguage, "")
  {
  }

  /** Away from those cases, and from line terminators, the two parsers agree. */
  lemma ParsersAgree(name: string)
    requires NoLineTerminator(name) && !HasSuffix(name, ".xliff") && name != ".xlf"
    ensures ParseT3FileName(name) == GoWorkspace.ParseT3FileName(name)
  {
    if HasSuffix(name, ".xlf") {
      assert |name| >= 5;
      assert NoLineTerminator(name[..|name| - 4]);
      if |name| >= 8 {
        var middle := name[3..|name| - 4];
        assert NoLineTerminator(middle) && GoWorkspace.NoNewline(middle) by {
          forall i | 0 <= i < |middle| ensures !IsLineTerminator(middle[i]) {
            assert middle[i] == name[i + 3];
          }
        }
      }
    }
  }

  // ---------------------------------------------------------------------
  // loadFile
  // ---------------------------------------------------------------------

  predicate IsPathSeparator(c: char) {
    c == '/' || c == '\\'
  }

  /** The text after the last '/' or '\', or the whole path without either. */
  function LastSegment(path: string): (r: string)
    ensures |r| <= |path| && r == path[|path| - |r|..]
    ensures forall i :: 0 <= i < |r| ==> !IsPathSeparator(r[i])
    ensures |r| < |path| ==> IsPathSeparator(path[|path| - |r| - 1])
  {
    if path == [] then []
    else if IsPathSeparator(path[|path| - 1]) then []
    else LastSegment(path[..|path| - 1]) + [path[|path| - 1]]
  }

  /** `filePath.split(/[\\/]/).pop() || filePath` */
  function FileNameOf(path: string): string {
    var seg := LastSegment(path);
    if seg == "" then path else seg
  }

  /** One unit as loadFile pushes it; a source-only file shows no targets. */
  function ExtractUnit(u: XliffUnit, isSourceOnly: bool): TranslationUnit {
    TranslationUnit(u.id, u.source, if isSourceOnly then "" else if u.target.Some? then u.target.value else "")
  }

  function ExtractUnits(us: seq<XliffUnit>, isSourceOnly: bool): (r: seq<TranslationUnit>)
    ensures |r| == |us|
    ensures forall i :: 0 <= i < |us| ==> r[i] == ExtractUnit(us[i], isSourceOnly)
  {
    if us == [] then [] else ExtractUnits(us[..|us| - 1], isSourceOnly) + [ExtractUnit(us[|us| - 1], isSourceOnly)]
  }

  /** The units of all files of a document, in order. */
  function AllUnits(files: seq<XliffFile>): seq<XliffUnit> {
    if files == [] then [] else AllUnits(files[..|files| - 1]) + files[|files| - 1].units
  }

  /** What the forEach over files pushes: every unit, file after file. */
  function UnitsOf(files: seq<XliffFile>, isSourceOnly: bool): seq<TranslationUnit> {
    if files == [] then []
    else UnitsOf(files[..|files| - 1], isSourceOnly) + ExtractUnits(files[|files| - 1].units, isSourceOnly)
  }

  /** What the forEach leaves in `sourceLanguage`: the last one set, else "en". */
  function SourceLanguageOf(files: seq<XliffFile>): string {
    if files == [] then "en"
    else if IsSet(files[|files| - 1].sourceLanguage) then files[|files| - 1].sourceLanguage.value
    else SourceLanguageOf(files[..|files| - 1])
  }

  /** What the forEach leaves in `targetLanguage`, starting from `initial`; a source-only file never updates it. */
  function TargetLanguageOf(files: seq<XliffFile>, isSourceOnly: bool, initial: string): string {
    if files == [] then initial
    else if !isSourceOnly && IsSet(files[|files| - 1].targetLanguage) then files[|files| - 1].targetLanguage.value
    else TargetLanguageOf(files[..|files| - 1], isSourceOnly, initial)
  }

  /** `parsed.version ?? '1.2'`, or `parsed.version || '1.2'` when an empty version also falls back. */
  function VersionOf(version: Option<string>, emptyFallsBack: bool): string {
    if version.None? || (emptyFallsBack && version.value == "") then "1.2" else version.value
  }

  /** The data loadFile returns for a parsed document; an exception gives null. */
  function LoadFile(filePath: string, parsed: Result<XliffDocument>, emptyVersionFallsBack: bool): (r: Option<FileData>)
    ensures r.Some? <==> parsed.Ok?
    ensures r.Some? ==> r.value.path == filePath && r.value.xliffData == parsed.value
  {
    if parsed.Err? then None
    else
      var name := ParseT3FileName(FileNameOf(filePath));
      var isSourceOnly := name.language == DefaultLanguage;
      var initialTarget := if isSourceOnly then "" else if name.language != "" then name.language else "de";
      var doc := parsed.value;
      Some(FileData(
        filePath, doc,
        UnitsOf(doc.files, isSourceOnly),
        SourceLanguageOf(doc.files),
        TargetLanguageOf(doc.files, isSourceOnly, initialTarget),
        VersionOf(doc.version, emptyVersionFallsBack),
        name.language, name.baseName, isSourceOnly))
  }

  /** The units are those of all files, in order, each mapped by ExtractUnit. */
  lemma {:induction false} UnitsOfAllUnits(files: seq<XliffFile>, isSourceOnly: bool)
    ensures |UnitsOf(files, isSourceOnly)| == |AllUnits(files)|
    ensures forall i :: 0 <= i < |AllUnits(files)| ==> UnitsOf(files, isSourceOnly)[i] == ExtractUnit(AllUnits(files)[i], isSourceOnly)
  {
    if files != [] {
      UnitsOfAllUnits(files[..|files| - 1], isSourceOnly);
    }
  }

  /** A file is source-only exactly when its name parses to "default"; then no unit shows a target and there is no target language. */
  lemma LoadFileSourceOnly(filePath: string, parsed: Result<XliffDocument>, emptyVersionFallsBack: bool)
    requires parsed.Ok?
    ensures var d := LoadFile(filePath, parsed, emptyVersionFallsBack).value;
      && (d.isSourceOnly <==> ParseT3FileName(FileNameOf(filePath)).language == DefaultLanguage)
      && (d.isSourceOnly ==> d.targetLanguage == "" && forall u :: u in d.units ==> u.target == "")
      && (!d.isSourceOnly ==> d.targetLanguage != "")
      && |d.units| == |AllUnits(parsed.value.files)|
  {
    var d := LoadFile(filePath, parsed, emptyVersionFallsBack).value;
    UnitsOfAllUnits(parsed.value.files, d.isSourceOnly);
    TargetLanguageSet(parsed.value.files, d.isSourceOnly, if d.isSourceOnly then "" else d.language);
    if d.isSourceOnly {
      assert TargetLanguageOf(parsed.value.files, true, "") == "" by {
        TargetLanguageSourceOnly(parsed.value.files, "");
      }
      forall u | u in d.units ensures u.target == "" {
        var i :| 0 <= i < |d.units| && d.units[i] == u;
      }
    }
  }

  lemma {:induction false} TargetLanguageSourceOnly(files: seq<XliffFile>, initial: string)
    ensures TargetLanguageOf(files, true, initial) == initial
  {
    if files != [] {
      TargetLanguageSourceOnly(files[..|files| - 1], initial);
    }
  }

  lemma {:induction false} TargetLanguageSet(files: seq<XliffFile>, isSourceOnly: bool, initial: string)
    ensures initial != "" ==> TargetLanguageOf(files, isSourceOnly, initial) != ""
  {
    if files != [] {
      TargetLanguageSet(files[..|files| - 1], isSourceOnly, initial);
    }
  }

  /** The source language is that of the last file that sets one, or "en" when none does. */
  lemma {:induction false} SourceLanguageIsLastSet(files: seq<XliffFile>)
    ensures (forall j :: 0 <= j < |files| ==> !IsSet(files[j].sourceLanguage)) ==> SourceLanguageOf(files) == "en"
    ensures forall i :: (0 <= i < |files| && IsSet(files[i].sourceLanguage)
      && forall j :: i < j < |files| ==> !IsSet(files[j].sourceLanguage)) ==>
      SourceLanguageOf(files) == files[i].sourceLanguage.value
  {
    if files != [] {
      var init := files[..|files| - 1];
      SourceLanguageIsLastSet(init);
      assert forall j :: 0 <= j < |init| ==> init[j] == files[j];
      forall i | 0 <= i < |files| && IsSet(files[i].sourceLanguage) && (forall j :: i < j < |files| ==> !IsSet(files[j].sourceLanguage))
        ensures SourceLanguageOf(files) == files[i].sourceLanguage.value
      {
        if i < |init| {
          assert !IsSet(files[|files| - 1].sourceLanguage);
        }
      }
    }
  }

  /** No file carries a target language. */
  ghost predicate NoTargetLanguage(files: seq<XliffFile>) {
    forall j :: 0 <= j < |files| ==> !IsSet(files[j].targetLanguage)
  }

  /** File `i` is the last one that carries a target language. */
  ghost predicate LastTargetAt(files: seq<XliffFile>, i: int) {
    && 0 <= i < |files| && IsSet(files[i].targetLanguage)
    && forall j :: i < j < |files| ==> !IsSet(files[j].targetLanguage)
  }

  lemma TargetLanguageIsLastSet(files: seq<XliffFile>, initial: string)
    ensures NoTargetLanguage(files) ==> TargetLanguageOf(files, false, initial) == initial
    ensures forall i :: LastTargetAt(files, i) ==> TargetLanguageOf(files, false, initial) == files[i].targetLanguage.value
  {
    if NoTargetLanguage(files) {
      TargetLanguageNoneSet(files, initial);
    }
    forall i | LastTargetAt(files, i)
      ensures TargetLanguageOf(files, false, initial) == files[i].targetLanguage.value
    {
      TargetLanguageLastSet(files, initial, i);
    }
  }

  /** Without any target language the initial one stays. */
  lemma {:induction false} TargetLanguageNoneSet(files: seq<XliffFile>, initial: string)
    requires forall j :: 0 <= j < |files| ==> !IsSet(files[j].targetLanguage)
    ensures TargetLanguageOf(files, false, initial) == initial
  {
    if files != [] {
      var init := files[..|files| - 1];
      forall j | 0 <= j < |init| ensures !IsSet(init[j].targetLanguage) {
        assert init[j] == files[j];
      }
      TargetLanguageNoneSet(init, initial);
    }
  }

  /** The last file with a target language decides. */
  lemma {:induction false} TargetLanguageLastSet(files: seq<XliffFile>, initial: string, i: int)
    requires 0 <= i < |files| && IsSet(files[i].targetLanguage)
    requires forall j :: i < j < |files| ==> !IsSet(files[j].targetLanguage)
    ensures TargetLanguageOf(files, false, initial) == files[i].targetLanguage.value
  {
    if i < |files| - 1 {
      var init := files[..|files| - 1];
      assert !IsSet(files[|files| - 1].targetLanguage);
      assert init[i] == files[i];
      forall j | i < j < |init| ensures !IsSet(init[j].targetLanguage) {
        assert init[j] == files[j];
      }
      TargetLanguageLastSet(init, initial, i);
    }
  }

  // ---------------------------------------------------------------------
  // scanForXliffFiles
  // ---------------------------------------------------------------------

  datatype NamedPath = NamedPath(name: string, path: string)

  /** The backend's listing, in its order, or [] when it throws. */
  function ScanForXliffFiles(listing: Result<seq<NamedPath>>): (r: seq<NamedPath>)
    ensures listing.Err? ==> r == []
    ensures listing.Ok? ==> r == listing.value
  {
    if listing.Err? then [] else listing.value
  }
}
