// Shapes shared by the React front end (frontend/src/types/index.ts) and the
// older Tauri front end. XLIFF documents are abstracted to what the editor
// reads: a list of files with optional languages, each holding a unit list.

module Types {
  import opened Common

  /** The three editable fields of a translation unit. */
  datatype Field = Id | Source | Target

  /** A unit as the editor shows it: the target is always a string. */
  datatype TranslationUnit = TranslationUnit(id: string, source: string, target: string)

  /** A unit as the XLIFF library parses it: the target may be absent. */
  datatype XliffUnit = XliffUnit(id: string, source: string, target: Option<string>)

  datatype XliffFile = XliffFile(sourceLanguage: Option<string>, targetLanguage: Option<string>, units: seq<XliffUnit>)

  datatype XliffDocument = XliffDocument(version: Option<string>, files: seq<XliffFile>)

  /** File metadata parsed from the TYPO3 naming convention. */
  datatype FileMetadata = FileMetadata(path: string, name: string, language: string, baseName: string, directory: string)

  datatype FileData = FileData(
    path: string,
    xliffData: XliffDocument,
    units: seq<TranslationUnit>,
    sourceLanguage: string,
    targetLanguage: string,
    version: string,
    language: string,
    baseName: string,
    isSourceOnly: bool)

  /** A group of files sharing directory and base name; `files` maps language to metadata in insertion order. */
  datatype TranslationGroup = TranslationGroup(
    id: string,
    baseName: string,
    directory: string,
    files: seq<(string, FileMetadata)>,
    sourceFile: Option<FileMetadata>)

  /** One dirty edit of one field of one unit. */
  datatype UnitChange = UnitChange(unitId: string, field: Field, oldValue: string, newValue: string, timestamp: int)

  datatype HistoryEntry = HistoryEntry(id: string, filePath: string, changes: seq<UnitChange>, timestamp: int)

  /** How the unit list is ordered. */
  datatype SortMode = Manual | KeyAsc | KeyDesc | SourceAsc | SourceDesc

  datatype WatchEventType = CreateEvent | ModifyEvent | DeleteEvent | RenameEvent

  datatype FileWatchEvent = FileWatchEvent(kind: WatchEventType, path: string, oldPath: string)

  /** The value a unit holds in field `f`. */
  function FieldOf(u: TranslationUnit, f: Field): string {
    match f
    case Id => u.id
    case Source => u.source
    case Target => u.target
  }

  /** `{ ...u, [f]: v }`: the unit with field `f` replaced by `v`. */
  function WithField(u: TranslationUnit, f: Field, v: string): (r: TranslationUnit)
    ensures FieldOf(r, f) == v
    ensures forall g :: g != f ==> FieldOf(r, g) == FieldOf(u, g)
  {
    match f
    case Id => u.(id := v)
    case Source => u.(source := v)
    case Target => u.(target := v)
  }

  /** The same write on a parsed XLIFF unit (the target becomes present). */
  function XliffWithField(u: XliffUnit, f: Field, v: string): (r: XliffUnit)
    ensures f == Id ==> r == u.(id := v)
    ensures f == Source ==> r == u.(source := v)
    ensures f == Target ==> r == u.(target := Some(v))
  {
    match f
    case Id => u.(id := v)
    case Source => u.(source := v)
    case Target => u.(target := Some(v))
  }

  /** The editor's view of an XLIFF unit: an absent target reads as "". */
  function ToTranslationUnit(u: XliffUnit): TranslationUnit {
    TranslationUnit(u.id, u.source, if u.target.Some? then u.target.value else "")
  }

  /** `units.map(u => u.id)` */
  function Ids(units: seq<TranslationUnit>): (r: seq<string>)
    ensures |r| == |units|
    ensures forall i :: 0 <= i < |units| ==> r[i] == units[i].id
  {
    if units == [] then [] else [units[0].id] + Ids(units[1..])
  }

  /** `units.find(u => u.id === id)`: the first unit with that id */
  function FindById(units: seq<TranslationUnit>, id: string): (r: Option<TranslationUnit>)
    ensures r.None? <==> id !in Ids(units)
    ensures r.Some? ==> r.value in units && r.value.id == id
  {
    if units == [] then None
    else if units[0].id == id then Some(units[0])
    else
      assert Ids(units) == [units[0].id] + Ids(units[1..]);
      FindById(units[1..], id)
  }
}
